/**
 The slide carousel of the project modal as a state record with pure event
 transitions. Timers are abstract: `AnimationEnd` is the timeout that clears
 the animation lock.

 The keyboard listener is registered once, when the modal mounts, so the
 handlers it calls test the lock value captured at that moment, which is
 always `false`; the arrow keys therefore move the carousel even while a
 transition is running. `HandleNext`/`HandlePrev` take the lock value the
 calling handler sees to express this.
 */
module Carousel {
  import opened Js

  datatype Direction = Left | Right

  /** `currentSlide`, `direction`, `isAnimating` and the piece-regeneration `key`. */
  datatype Carousel = Carousel(currentSlide: Number, direction: Direction, isAnimating: bool, key: int)

  /** The state when the modal opens. */
  const Initial: Carousel := Carousel(Int(0), Right, false, 0)

  /** The lock value the keyboard listener's handlers see for the modal's whole lifetime. */
  const LockSeenByKeyboard: bool := Initial.isAnimating

  /** The slide index lies inside a carousel of `n` slides. */
  predicate OnSlide(c: Carousel, n: nat) {
    c.currentSlide.Int? && 0 <= c.currentSlide.v < n
  }

  /** A modal with at least one slide opens on a slide, unlocked, and the
      keyboard's view of the lock is the unlocked state it opened with. */
  lemma InitialOnSlide(n: nat)
    requires n > 0
    ensures OnSlide(Initial, n) && Initial.currentSlide == Int(0)
    ensures !Initial.isAnimating && !LockSeenByKeyboard
  {
  }

  /** `handleNextSlide` when its closure sees `lockSeen` as `isAnimating`. */
  function HandleNext(c: Carousel, n: nat, lockSeen: bool): (r: Carousel)
    ensures lockSeen ==> r == c
    ensures !lockSeen ==> r.isAnimating && r.direction == Right && r.key == c.key + 1
    ensures !lockSeen && OnSlide(c, n) ==> OnSlide(r, n) && r.currentSlide.v == (c.currentSlide.v + 1) % n
    ensures !lockSeen && n == 0 ==> r.currentSlide.NaN?
  {
    if lockSeen then c
    else c.(direction := Right, isAnimating := true, key := c.key + 1,
            currentSlide := RemNumber(AddInt(c.currentSlide, 1), n))
  }

  /** `handlePrevSlide` when its closure sees `lockSeen` as `isAnimating`. */
  function HandlePrev(c: Carousel, n: nat, lockSeen: bool): (r: Carousel)
    ensures lockSeen ==> r == c
    ensures !lockSeen ==> r.isAnimating && r.direction == Left && r.key == c.key + 1
    ensures !lockSeen && OnSlide(c, n) ==> OnSlide(r, n) && r.currentSlide.v == (c.currentSlide.v - 1 + n) % n
    ensures !lockSeen && n == 0 ==> r.currentSlide.NaN?
  {
    if lockSeen then c
    else c.(direction := Left, isAnimating := true, key := c.key + 1,
            currentSlide := RemNumber(AddInt(AddInt(c.currentSlide, -1), n), n))
  }

  /** The next-arrow button: rejected while a transition runs. */
  function NextButton(c: Carousel, n: nat): (r: Carousel)
    ensures c.isAnimating ==> r == c
    ensures !c.isAnimating ==> r.isAnimating && r.direction == Right && r.key == c.key + 1
    ensures !c.isAnimating && OnSlide(c, n) ==> OnSlide(r, n) && r.currentSlide.v == (c.currentSlide.v + 1) % n
  {
    HandleNext(c, n, c.isAnimating)
  }

  /** The previous-arrow button: rejected while a transition runs. */
  function PrevButton(c: Carousel, n: nat): (r: Carousel)
    ensures c.isAnimating ==> r == c
    ensures !c.isAnimating ==> r.isAnimating && r.direction == Left && r.key == c.key + 1
    ensures !c.isAnimating && OnSlide(c, n) ==> OnSlide(r, n) && r.currentSlide.v == (c.currentSlide.v - 1 + n) % n
  {
    HandlePrev(c, n, c.isAnimating)
  }

  /** The timeout scheduled by an accepted next/prev: it clears the lock. */
  function AnimationEnd(c: Carousel): (r: Carousel)
    ensures !r.isAnimating
    ensures r.currentSlide == c.currentSlide && r.direction == c.direction && r.key == c.key
  {
    c.(isAnimating := false)
  }

  /** `index > currentSlide` in JavaScript: false whenever the slide is NaN. */
  predicate After(index: nat, current: Number) {
    current.Int? && index > current.v
  }

  /** A click on the slide indicator for `index`. It does not take the lock. */
  function Jump(c: Carousel, index: nat): (r: Carousel)
    ensures c.isAnimating || c.currentSlide == Int(index) ==> r == c
    ensures !c.isAnimating && c.currentSlide != Int(index) ==>
      r.currentSlide == Int(index) && r.key == c.key + 1
    ensures !c.isAnimating && c.currentSlide.Int? && c.currentSlide != Int(index) ==>
      (r.direction == Right <==> index > c.currentSlide.v)
    ensures r.isAnimating == c.isAnimating
  {
    if !c.isAnimating && Int(index) != c.currentSlide then
      c.(direction := if After(index, c.currentSlide) then Right else Left,
         key := c.key + 1, currentSlide := Int(index))
    else c
  }

  /** What a key press produces: the new state and whether the modal asked to close. */
  datatype KeyOutcome = KeyOutcome(state: Carousel, close: bool)

  /** `handleKeyDown` as registered at mount. */
  function KeyDown(c: Carousel, n: nat, key: string): (r: KeyOutcome)
    ensures r.close <==> key == "Escape"
    ensures key == "ArrowLeft" ==> r.state == HandlePrev(c, n, false)
    ensures key == "ArrowRight" ==> r.state == HandleNext(c, n, false)
    ensures key != "ArrowLeft" && key != "ArrowRight" ==> r.state == c
  {
    var close := key == "Escape";
    var afterLeft := if key == "ArrowLeft" then HandlePrev(c, n, LockSeenByKeyboard) else c;
    var afterRight := if key == "ArrowRight" then HandleNext(afterLeft, n, LockSeenByKeyboard) else afterLeft;
    KeyOutcome(afterRight, close)
  }

  lemma ModPredecessor(i: int, n: nat)
    requires 0 <= i < n
    ensures ((i + 1) % n - 1 + n) % n == i
  {
  }

  lemma ModSuccessor(i: int, n: nat)
    requires 0 <= i < n
    ensures ((i - 1 + n) % n + 1) % n == i
  {
  }

  /** Next, then the lock clears, then prev: back on the starting slide. */
  lemma NextThenPrev(c: Carousel, n: nat)
    requires OnSlide(c, n) && !c.isAnimating
    ensures PrevButton(AnimationEnd(NextButton(c, n)), n).currentSlide == c.currentSlide
    ensures PrevButton(AnimationEnd(NextButton(c, n)), n).key == c.key + 2
  {
    ModPredecessor(c.currentSlide.v, n);
  }

  /** Prev, then the lock clears, then next: back on the starting slide. */
  lemma PrevThenNext(c: Carousel, n: nat)
    requires OnSlide(c, n) && !c.isAnimating
    ensures NextButton(AnimationEnd(PrevButton(c, n)), n).currentSlide == c.currentSlide
  {
    ModSuccessor(c.currentSlide.v, n);
  }

  /** `k` accepted presses of next, each followed by the lock timeout. */
  function NextPresses(c: Carousel, n: nat, k: nat): Carousel {
    if k == 0 then c else AnimationEnd(NextButton(NextPresses(c, n, k - 1), n))
  }

  /** After `k` presses of next the carousel shows slide `(i + k) mod n`. */
  lemma {:induction false} NextPressesAdvance(c: Carousel, n: nat, k: nat)
    requires OnSlide(c, n) && !c.isAnimating
    ensures OnSlide(NextPresses(c, n, k), n)
    ensures NextPresses(c, n, k).currentSlide.v == (c.currentSlide.v + k) % n
    ensures NextPresses(c, n, k).key == c.key + k
    ensures !NextPresses(c, n, k).isAnimating
  {
    if k > 0 {
      var i := c.currentSlide.v;
      var before := NextPresses(c, n, k - 1);
      NextPressesAdvance(c, n, k - 1);
      var moved := NextButton(before, n);
      assert moved.currentSlide.v == (before.currentSlide.v + 1) % n;
      ModAddOne(i + k - 1, n);
      assert NextPresses(c, n, k) == AnimationEnd(moved);
    } else {
      assert c.currentSlide.v % n == c.currentSlide.v;
    }
  }

  lemma {:induction false} ModAddOne(a: nat, n: nat)
    requires n > 0
    ensures (a % n + 1) % n == (a + 1) % n
    decreases a
  {
    if a >= n {
      ModAddOne(a - n, n);
      ModShift(a - n, n);
      ModShift(a + 1 - n, n);
    }
  }

  lemma ModShift(a: nat, n: nat)
    requires n > 0
    ensures (a + n) % n == a % n
  {
    ModUnique(a + n, n, a / n + 1, a % n);
  }

  /** Pressing next once per slide brings the carousel back to where it started. */
  lemma FullCycle(c: Carousel, n: nat)
    requires OnSlide(c, n) && !c.isAnimating
    ensures NextPresses(c, n, n).currentSlide == c.currentSlide
  {
    var i := c.currentSlide.v;
    NextPressesAdvance(c, n, n);
    WrapOnce(i, n);
  }

  lemma WrapOnce(i: int, n: nat)
    requires 0 <= i < n
    ensures (i + n) % n == i
  {
  }

  /** The arrow keys ignore the lock: while a transition is running the buttons
      are rejected but the right-arrow key still moves to the next slide. */
  lemma KeyboardBypassesLock(c: Carousel, n: nat)
    requires OnSlide(c, n) && n > 1 && c.isAnimating
    ensures NextButton(c, n) == c
    ensures KeyDown(c, n, "ArrowRight").state.currentSlide != c.currentSlide
  {
    var i := c.currentSlide.v;
    if i + 1 < n {
      assert (i + 1) % n == i + 1;
    } else {
      assert (i + 1) % n == 0;
    }
  }

  /** The key handler as its lock check evidently intends: the arrow keys see
      the current `isAnimating`, as they would with a listener re-registered on
      every change of the lock or one reading the lock through a ref. */
  function KeyDownLocked(c: Carousel, n: nat, key: string): (r: KeyOutcome)
    ensures r.close <==> key == "Escape"
    ensures c.isAnimating ==> r.state == c
    ensures key == "ArrowLeft" ==> r.state == PrevButton(c, n)
    ensures key == "ArrowRight" ==> r.state == NextButton(c, n)
    ensures key != "ArrowLeft" && key != "ArrowRight" ==> r.state == c
  {
    var afterLeft := if key == "ArrowLeft" then HandlePrev(c, n, c.isAnimating) else c;
    var afterRight := if key == "ArrowRight" then HandleNext(afterLeft, n, c.isAnimating) else afterLeft;
    KeyOutcome(afterRight, key == "Escape")
  }

  /** Every event keeps the slide index inside a non-empty carousel. */
  lemma EventsKeepSlideInRange(c: Carousel, n: nat, index: nat, key: string)
    requires OnSlide(c, n)
    requires index < n
    ensures OnSlide(NextButton(c, n), n) && OnSlide(PrevButton(c, n), n)
    ensures OnSlide(Jump(c, index), n) && OnSlide(AnimationEnd(c), n)
    ensures OnSlide(KeyDown(c, n, key).state, n)
  {
  }
}
