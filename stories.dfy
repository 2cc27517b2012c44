/** The full-screen story viewer of `openStoryViewer` in js/instagram.js: the
    index of the story on screen, the progress bar of every story, the
    pending auto-advance timer, and the close button and arrow/Escape keys.

    Story content, the page's scroll lock and the real passing of time are
    not modelled: the five-second timer is a pending flag, and its expiry is
    the `TimerFires` event. */
module Stories {

  datatype Story = Story(mediaUrl: string, caption: string)

  /** The `width` style of a progress fill: not set yet, `0`, or `100%`. */
  datatype Width = Unset | Zero | Full

  /** The `transition` style of a progress fill: not set yet (the
      stylesheet's), `width 5s linear`, or `none`. */
  datatype Transition = Inherited | Linear5s | NoTransition

  datatype Bar = Bar(width: Width, transition: Transition)

  /** The progress bars `showStory` leaves for the story at `current`, from
      the bars it found: earlier fills widened to full (their transition
      untouched), the current one animating to full, later ones empty
      without transition. */
  predicate BarsShow(before: seq<Bar>, after: seq<Bar>, current: int) {
    && |after| == |before|
    && forall i | 0 <= i < |after| ::
      && (i < current ==> after[i] == before[i].(width := Full))
      && (i == current ==> after[i] == Bar(Full, Linear5s))
      && (i > current ==> after[i] == Bar(Zero, NoTransition))
  }

  /** The index `showStory(index)` settles on among `n` stories: below the
      start wraps to the last story, past the end wraps to the first. */
  function NormalizeIndex(index: int, n: nat): (r: int)
    requires n > 0
    ensures 0 <= r < n
    ensures 0 <= index < n ==> r == index
    ensures index < 0 ==> r == n - 1
    ensures index >= n ==> r == 0
  {
    var i := if index < 0 then n - 1 else index;
    if i >= n then 0 else i
  }

  /** Going back from the first story shows the last, going on from the last
      shows the first. */
  lemma WrapAround(n: nat)
    requires n > 0
    ensures NormalizeIndex(0 - 1, n) == n - 1
    ensures NormalizeIndex((n - 1) + 1, n) == 0
  {
  }

  /** Prev undoes next and next undoes prev, from any story. */
  lemma PrevNextInverse(i: int, n: nat)
    requires n > 0 && 0 <= i < n
    ensures NormalizeIndex(NormalizeIndex(i + 1, n) - 1, n) == i
    ensures NormalizeIndex(NormalizeIndex(i - 1, n) + 1, n) == i
  {
  }

  /** The index after `k` auto-advances from story `i`. */
  function Advance(i: int, n: nat, k: nat): (r: int)
    requires n > 0
    ensures 0 <= r < n
  {
    if k == 0 then NormalizeIndex(i, n) else NormalizeIndex(Advance(i, n, k - 1) + 1, n)
  }

  /** Before the end is reached, each advance moves one story on. */
  lemma {:induction false} AdvanceCounts(i: int, n: nat, k: nat)
    requires n > 0 && 0 <= i && i + k < n
    ensures Advance(i, n, k) == i + k
  {
    if k > 0 {
      AdvanceCounts(i, n, k - 1);
    }
  }

  /** Advancing `a` times and then `b` times is advancing `a + b` times. */
  lemma {:induction false} AdvanceAdds(i: int, n: nat, a: nat, b: nat)
    requires n > 0
    ensures Advance(i, n, a + b) == Advance(Advance(i, n, a), n, b)
  {
    if b > 0 {
      AdvanceAdds(i, n, a, b - 1);
      assert a + b - 1 == a + (b - 1);
    }
  }

  /** Left alone, the viewer cycles: after `n` auto-advances it is back at
      the story it started from, having wrapped from the last story to the
      first on the way. */
  lemma AdvanceCycles(i: int, n: nat)
    requires n > 0 && 0 <= i < n
    ensures Advance(i, n, n - 1 - i) == n - 1
    ensures Advance(i, n, n - i) == 0
    ensures Advance(i, n, n) == i
  {
    AdvanceCounts(i, n, n - 1 - i);
    AdvanceAdds(i, n, n - i, i);
    AdvanceCounts(0, n, i);
  }

  class StoryViewer {
    const stories: seq<Story>
    /** The `.story-progress-fill` elements, one per story. */
    const bars: array<Bar>
    var currentIndex: int
    /** Whether an auto-advance timeout is scheduled and not yet fired or
        cleared. */
    var pendingTimer: bool
    /** Whether the viewer element is still in the page. */
    var attached: bool
    /** Whether the `keydown` listener is still registered. */
    var listening: bool

    predicate Valid()
      reads this
    {
      && |stories| > 0
      && bars.Length == |stories|
      && 0 <= currentIndex < |stories|
    }

    /** `openStoryViewer(stories, startIndex)`: one unset progress bar per
        story, the viewer added to the page, the first `showStory` for
        `startIndex` (0 by default), and the key listener registered. */
    constructor Open(stories: seq<Story>, startIndex: int := 0)
      requires |stories| > 0
      ensures Valid()
      ensures this.stories == stories && fresh(bars)
      ensures currentIndex == NormalizeIndex(startIndex, |stories|)
      ensures pendingTimer && attached && listening
      ensures forall i | 0 <= i < bars.Length ::
        && (i < currentIndex ==> bars[i] == Bar(Full, Inherited))
        && (i == currentIndex ==> bars[i] == Bar(Full, Linear5s))
        && (i > currentIndex ==> bars[i] == Bar(Zero, NoTransition))
    {
      this.stories := stories;
      bars := new Bar[|stories|](_ => Bar(Unset, Inherited));
      currentIndex := startIndex;
      pendingTimer := false;
      attached := true;
      listening := false;
      new;
      ShowStory(currentIndex);
      listening := true;
    }

    /** `showStory(index)`: the pending timer is cleared, the index is
        wrapped into range, the bars are reset when the viewer is in the page
        (earlier ones full, the current one animating to full, later ones
        empty without transition), and a new timer is scheduled. */
    method ShowStory(index: int)
      requires |stories| > 0 && bars.Length == |stories|
      modifies this, bars
      ensures Valid()
      ensures currentIndex == NormalizeIndex(index, |stories|)
      ensures pendingTimer
      ensures attached == old(attached) && listening == old(listening)
      ensures attached ==> BarsShow(old(bars[..]), bars[..], currentIndex)
      ensures !attached ==> bars[..] == old(bars[..])
    {
      pendingTimer := false;
      var i := index;
      if i < 0 {
        i := |stories| - 1;
      }
      if i >= |stories| {
        i := 0;
      }
      currentIndex := i;
      if attached {
        for k := 0 to bars.Length
          invariant forall j | 0 <= j < k ::
            && (j < currentIndex ==> bars[j] == old(bars[j]).(width := Full))
            && (j == currentIndex ==> bars[j] == Bar(Full, Linear5s))
            && (j > currentIndex ==> bars[j] == Bar(Zero, NoTransition))
          invariant forall j | k <= j < bars.Length :: bars[j] == old(bars[j])
          invariant currentIndex == i && attached && listening == old(listening)
          invariant bars.Length == |stories|
        {
          if k < currentIndex {
            bars[k] := bars[k].(width := Full);
          } else if k == currentIndex {
            bars[k] := Bar(Full, Linear5s);
          } else {
            bars[k] := Bar(Zero, NoTransition);
          }
        }
        assert BarsShow(old(bars[..]), bars[..], currentIndex);
      }
      pendingTimer := true;
    }

    /** The next button: the story after the current one, wrapping. */
    method Next()
      requires Valid()
      modifies this, bars
      ensures Valid()
      ensures currentIndex == (if old(currentIndex) == |stories| - 1 then 0 else old(currentIndex) + 1)
      ensures pendingTimer && attached == old(attached) && listening == old(listening)
      ensures attached ==> BarsShow(old(bars[..]), bars[..], currentIndex)
      ensures !attached ==> bars[..] == old(bars[..])
    {
      ShowStory(currentIndex + 1);
    }

    /** The prev button: the story before the current one, wrapping. */
    method Prev()
      requires Valid()
      modifies this, bars
      ensures Valid()
      ensures currentIndex == (if old(currentIndex) == 0 then |stories| - 1 else old(currentIndex) - 1)
      ensures pendingTimer && attached == old(attached) && listening == old(listening)
      ensures attached ==> BarsShow(old(bars[..]), bars[..], currentIndex)
      ensures !attached ==> bars[..] == old(bars[..])
    {
      ShowStory(currentIndex - 1);
    }

    /** The auto-advance timeout fires: it is no longer pending, and it shows
        the next story, scheduling the next timeout. */
    method TimerFires()
      requires Valid() && pendingTimer
      modifies this, bars
      ensures Valid()
      ensures currentIndex == NormalizeIndex(old(currentIndex) + 1, |stories|)
      ensures pendingTimer && attached == old(attached) && listening == old(listening)
      ensures attached ==> BarsShow(old(bars[..]), bars[..], currentIndex)
      ensures !attached ==> bars[..] == old(bars[..])
    {
      pendingTimer := false;
      ShowStory(currentIndex + 1);
    }

    /** The close button's handler: the pending timeout is cleared and the
        viewer leaves the page. When it has already left, removing it again
        throws after the timeout has been cleared; the event dispatch reports
        that exception and does not pass it on to whoever clicked. */
    method Close()
      modifies this
      ensures !pendingTimer && !attached
      ensures currentIndex == old(currentIndex) && listening == old(listening)
    {
      pendingTimer := false;
      attached := false;
    }

    /** The `keydown` listener: Escape clicks close and then unregisters the
        listener (a failure inside the close handler stays inside the click),
        ArrowLeft clicks prev, ArrowRight clicks next, any other key does
        nothing. Once unregistered, the listener sees no more keys. */
    method KeyDown(key: string)
      requires Valid()
      modifies this, bars
      ensures Valid()
      ensures !old(listening) ==>
        && currentIndex == old(currentIndex) && pendingTimer == old(pendingTimer)
        && attached == old(attached) && listening == old(listening)
      ensures old(listening) && key == "Escape" ==>
        && !pendingTimer && !attached && !listening && currentIndex == old(currentIndex)
      ensures old(listening) && key == "ArrowLeft" ==>
        currentIndex == NormalizeIndex(old(currentIndex) - 1, |stories|) && pendingTimer && listening
      ensures old(listening) && key == "ArrowRight" ==>
        currentIndex == NormalizeIndex(old(currentIndex) + 1, |stories|) && pendingTimer && listening
      ensures old(listening) && key != "Escape" && key != "ArrowLeft" && key != "ArrowRight" ==>
        && currentIndex == old(currentIndex) && pendingTimer == old(pendingTimer)
        && attached == old(attached) && listening
      ensures key != "Escape" ==> attached == old(attached) && listening == old(listening)
      ensures old(listening) && attached && (key == "ArrowLeft" || key == "ArrowRight") ==>
        BarsShow(old(bars[..]), bars[..], currentIndex)
      ensures !(old(listening) && attached && (key == "ArrowLeft" || key == "ArrowRight")) ==>
        bars[..] == old(bars[..])
    {
      if !listening {
        return;
      }
      if key == "Escape" {
        Close();
        listening := false;
      } else if key == "ArrowLeft" {
        Prev();
      } else if key == "ArrowRight" {
        Next();
      }
    }
  }
}
