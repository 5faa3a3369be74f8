/**
 The typing effect of the About page's hero as a state record driven by
 abstract timer events: `Tick` is one firing of the typing interval,
 `PauseElapsed` the timeout that advances to the next phrase, `CursorTick`
 one firing of the cursor interval.

 The typing effect re-runs whenever the phrase index changes. Two
 consequences follow the code rather than the intent one might assume:
 `typedText` is not cleared when the phrase changes, so until the first tick
 of the new phrase it still shows the previous one; and with a single phrase
 the advance stores the index it already holds, the effect does not re-run,
 and typing never restarts.
 */
module Hero {
  import opened Js

  /** `typedText`, `currentPhraseIndex` and `showCursor`, plus the typing
      effect's local counter, whether its interval is running, and whether the
      advance timeout is pending. */
  datatype Hero = Hero(
    typedText: string,
    phraseIndex: Number,
    counter: nat,
    typing: bool,
    pausePending: bool,
    showCursor: bool)

  /** The state after the page mounts: the typing effect has just started. */
  const Initial: Hero := Hero("", Int(0), 0, true, false, true)

  /** A typing tick either updates the state or throws, as reading `.length`
      of an undefined phrase does; a throwing callback changes nothing. */
  datatype TickResult = Ticked(state: Hero) | TypeError

  /** `phrases[index]`: undefined outside the list or for NaN. */
  function PhraseAt(phrases: seq<string>, index: Number): (r: Option<string>)
    ensures r.Some? <==> index.Int? && 0 <= index.v < |phrases|
    ensures r.Some? ==> r.value in phrases
  {
    if index.Int? && 0 <= index.v < |phrases| then Some(phrases[index.v]) else None
  }

  /** One firing of the typing interval. */
  function Tick(h: Hero, phrases: seq<string>): (r: TickResult)
    ensures !h.typing ==> r == Ticked(h)
    ensures h.typing && PhraseAt(phrases, h.phraseIndex).None? ==> r == TypeError
    ensures var phrase := PhraseAt(phrases, h.phraseIndex);
      h.typing && phrase.Some? ==>
        && r.Ticked?
        && r.state.phraseIndex == h.phraseIndex
        && r.state.showCursor == h.showCursor
        && (h.counter <= |phrase.value| ==>
              r.state.typing && r.state.counter == h.counter + 1 && r.state.pausePending == h.pausePending &&
              r.state.typedText <= phrase.value && |r.state.typedText| == h.counter)
        && (h.counter > |phrase.value| ==>
              !r.state.typing && r.state.pausePending && r.state.typedText == h.typedText &&
              r.state.counter == h.counter)
  {
    if !h.typing then Ticked(h)
    else match PhraseAt(phrases, h.phraseIndex)
      case None => TypeError
      case Some(phrase) =>
        if h.counter <= |phrase| then
          Ticked(h.(typedText := phrase[..h.counter], counter := h.counter + 1))
        else
          Ticked(h.(typing := false, pausePending := true))
  }

  /** The advance timeout: `setCurrentPhraseIndex(prev => (prev + 1) % phrases.length)`.
      A new index restarts the typing effect; the same index does not. */
  function PauseElapsed(h: Hero, phrases: seq<string>): (r: Hero)
    ensures !h.pausePending ==> r == h
    ensures h.pausePending ==> !r.pausePending && r.typedText == h.typedText && r.showCursor == h.showCursor
    ensures h.pausePending && h.phraseIndex.Int? && 0 <= h.phraseIndex.v < |phrases| ==>
      r.phraseIndex == Int((h.phraseIndex.v + 1) % |phrases|) && 0 <= r.phraseIndex.v < |phrases|
    ensures h.pausePending && r.phraseIndex != h.phraseIndex ==> r.typing && r.counter == 0
    ensures r.phraseIndex == h.phraseIndex ==> r.typing == h.typing && r.counter == h.counter
  {
    if !h.pausePending then h
    else
      var next := RemNumber(AddInt(h.phraseIndex, 1), |phrases|);
      if next == h.phraseIndex then h.(pausePending := false)
      else h.(pausePending := false, phraseIndex := next, counter := 0, typing := true)
  }

  /** One firing of the cursor interval. */
  function CursorTick(h: Hero): (r: Hero)
    ensures r.showCursor != h.showCursor
    ensures r.(showCursor := h.showCursor) == h
  {
    h.(showCursor := !h.showCursor)
  }

  /** Two cursor ticks restore the cursor. */
  lemma CursorTwice(h: Hero)
    ensures CursorTick(CursorTick(h)) == h
  {
  }

  /** The consistency the typing machine keeps for a fixed phrase list: the
      index names a phrase, and once the counter has moved the text is the
      prefix of that phrase it last revealed. */
  ghost predicate Inv(h: Hero, phrases: seq<string>) {
    && h.phraseIndex.Int? && 0 <= h.phraseIndex.v < |phrases|
    && var phrase := phrases[h.phraseIndex.v];
    && h.counter <= |phrase| + 1
    && (h.counter > 0 ==> h.typedText == phrase[..h.counter - 1])
    && (!h.typing ==> h.counter == |phrase| + 1 && h.typedText == phrase)
    && (h.pausePending ==> !h.typing)
  }

  lemma InitialInv(phrases: seq<string>)
    requires |phrases| > 0
    ensures Inv(Initial, phrases)
  {
  }

  /** Every event keeps the invariant, and a tick never throws while it holds. */
  lemma EventsKeepInv(h: Hero, phrases: seq<string>)
    requires Inv(h, phrases)
    ensures Tick(h, phrases).Ticked? && Inv(Tick(h, phrases).state, phrases)
    ensures Inv(PauseElapsed(h, phrases), phrases)
    ensures Inv(CursorTick(h), phrases)
  {
    var phrase := phrases[h.phraseIndex.v];
    if h.typing && h.counter <= |phrase| {
      var h' := Tick(h, phrases).state;
      if h.counter == |phrase| {
        assert h'.typedText == phrase;
      }
    }
  }

  /** Once its counter has moved, the text shown is a prefix of the current phrase. */
  lemma TypedTextIsPrefix(h: Hero, phrases: seq<string>)
    requires Inv(h, phrases) && h.counter > 0
    ensures h.typedText <= phrases[h.phraseIndex.v]
  {
  }

  /** `k` firings of the typing interval. */
  function Ticks(h: Hero, phrases: seq<string>, k: nat): Hero {
    if k == 0 then h
    else
      var before := Ticks(h, phrases, k - 1);
      match Tick(before, phrases)
      case Ticked(after) => after
      case TypeError => before
  }

  /** From the start of a phrase, `k` ticks reveal its first `k - 1` characters. */
  lemma {:induction false} TicksReveal(h: Hero, phrases: seq<string>, k: nat)
    requires h.typing && h.counter == 0
    requires PhraseAt(phrases, h.phraseIndex).Some?
    requires k <= |PhraseAt(phrases, h.phraseIndex).value| + 1
    ensures Ticks(h, phrases, k).typing
    ensures Ticks(h, phrases, k).phraseIndex == h.phraseIndex
    ensures Ticks(h, phrases, k).counter == k
    ensures k > 0 ==> Ticks(h, phrases, k).typedText == PhraseAt(phrases, h.phraseIndex).value[..k - 1]
  {
    if k > 0 {
      TicksReveal(h, phrases, k - 1);
    }
  }

  /** After `|phrase| + 1` ticks the whole phrase is shown; the next tick stops
      typing and schedules the advance. */
  lemma TypesWholePhrase(h: Hero, phrases: seq<string>)
    requires h.typing && h.counter == 0
    requires PhraseAt(phrases, h.phraseIndex).Some?
    ensures Ticks(h, phrases, |PhraseAt(phrases, h.phraseIndex).value| + 1).typedText == PhraseAt(phrases, h.phraseIndex).value
    ensures var done := Ticks(h, phrases, |PhraseAt(phrases, h.phraseIndex).value| + 2);
      !done.typing && done.pausePending && done.typedText == PhraseAt(phrases, h.phraseIndex).value
  {
    var phrase := PhraseAt(phrases, h.phraseIndex).value;
    TicksReveal(h, phrases, |phrase| + 1);
    assert phrase[..|phrase|] == phrase;
  }

  /** With several phrases the advance moves to the next phrase and restarts
      typing; with one phrase it keeps the index and typing stays stopped. */
  lemma AdvanceRestarts(h: Hero, phrases: seq<string>)
    requires Inv(h, phrases) && h.pausePending
    ensures |phrases| > 1 ==> PauseElapsed(h, phrases).typing
    ensures |phrases| == 1 ==> !PauseElapsed(h, phrases).typing && !PauseElapsed(h, phrases).pausePending
  {
    var i := h.phraseIndex.v;
    if |phrases| > 1 {
      if i + 1 < |phrases| {
        assert (i + 1) % |phrases| == i + 1;
      } else {
        assert (i + 1) % |phrases| == 0;
      }
    }
  }

  /** With several phrases the advance moves to another phrase while the text
      still shows the whole previous phrase. */
  lemma AdvanceKeepsPreviousText(h: Hero, phrases: seq<string>)
    requires Inv(h, phrases) && h.pausePending && |phrases| > 1
    ensures PauseElapsed(h, phrases).phraseIndex != h.phraseIndex
    ensures PauseElapsed(h, phrases).typedText == phrases[h.phraseIndex.v]
  {
  }

  /** The stale text need not be a prefix of the new current phrase: with
      phrases "ab" and "cd" it is "ab" while the current phrase is "cd". */
  lemma StaleTextAfterAdvance()
    ensures var phrases := ["ab", "cd"];
      var done := Hero("ab", Int(0), 3, false, true, true);
      Inv(done, phrases) &&
      var next := PauseElapsed(done, phrases);
      next.phraseIndex == Int(1) && !(next.typedText <= phrases[1])
  {
    var phrases := ["ab", "cd"];
    assert phrases[0][..2] == "ab";
    assert "ab"[0] != "cd"[0];
  }
}
