/**
  The typewriter effect of the portfolio's landing view.

  A fixed list of phrases is shown one character at a time: each phrase is
  typed out, held, deleted character by character, and then the next phrase
  (wrapping round to the first) is typed.  Every step returns the delay, in
  milliseconds, before the next step is due; the timer itself is not modelled.
 */
module Typewriter {

  /** The phrases the landing view cycles through. */
  const Phrases: seq<string> := [
    "Graduate Student @ Rutgers",
    "Ex-Software Developer @ CSG",
    "Cloud & AI Enthusiast",
    "Teaching Assistant"
  ]

  /** Delay after the step that shows a whole phrase. */
  const PauseDelay := 2000
  /** Delay after a step that leaves the machine deleting. */
  const DeletingDelay := 100
  /** Delay after a step that leaves the machine typing. */
  const TypingDelay := 150

  /** `n` clamped into `[0, len]`, as string methods of JavaScript clamp their indices. */
  function Clamp(n: int, len: nat): (r: nat)
    ensures r <= len
    ensures 0 <= n <= len ==> r == n
    ensures n < 0 ==> r == 0
    ensures len < n ==> r == len
  {
    if n < 0 then 0 else if len < n then len else n
  }

  /**
    JavaScript's `String.prototype.substring(start, end)`: both indices are
    clamped to the string and swapped when given in the wrong order.  Indices
    count characters here, which agrees with JavaScript's UTF-16 code units
    only on strings without surrogate pairs (such as the site's phrases).
   */
  function Substring(s: string, start: int, end: int): (r: string)
    ensures 0 <= start <= end <= |s| ==> r == s[start..end]
    ensures start == 0 ==> r == s[..Clamp(end, |s|)]
    ensures |r| <= |s|
  {
    var a, b := Clamp(start, |s|), Clamp(end, |s|);
    if a <= b then s[a..b] else s[b..a]
  }

  /** The closure state of the effect: current phrase, characters shown, direction. */
  datatype Cycle = Cycle(index: nat, charPos: int, deleting: bool)

  /** The state the effect starts from. */
  const Start := Cycle(0, 0, false)

  /** What one call of the step does: the new state, the text it shows, the delay it schedules. */
  datatype StepResult = StepResult(next: Cycle, shown: string, delay: int)

  /** One call of the step function, for any state whose index names a phrase. */
  function StepOf(texts: seq<string>, c: Cycle): (r: StepResult)
    requires c.index < |texts|
    ensures r.next.index < |texts|
  {
    var text := texts[c.index];
    if !c.deleting then
      var shown := Substring(text, 0, c.charPos + 1);
      var pos := c.charPos + 1;
      if pos == |text| then StepResult(Cycle(c.index, pos, true), shown, PauseDelay)
      else StepResult(Cycle(c.index, pos, false), shown, TypingDelay)
    else
      var shown := Substring(text, 0, c.charPos - 1);
      var pos := c.charPos - 1;
      var next := if pos == 0 then Cycle((c.index + 1) % |texts|, 0, false)
                  else Cycle(c.index, pos, true);
      StepResult(next, shown, if next.deleting then DeletingDelay else TypingDelay)
  }

  /** A phrase list the effect can cycle through: at least one phrase, none empty. */
  predicate WellFormed(texts: seq<string>) {
    |texts| > 0 && forall i :: 0 <= i < |texts| ==> |texts[i]| > 0
  }

  /**
    The invariant every reachable state keeps: the index names a phrase, the
    position lies within it, typing never starts from a full phrase and
    deleting never starts from an empty one.
   */
  predicate Inv(texts: seq<string>, c: Cycle) {
    && c.index < |texts|
    && 0 <= c.charPos <= |texts[c.index]|
    && (!c.deleting ==> c.charPos < |texts[c.index]|)
    && (c.deleting ==> 0 < c.charPos)
  }

  /** The text a state stands for: the first `charPos` characters of the current phrase. */
  function Shown(texts: seq<string>, c: Cycle): (r: string)
    requires Inv(texts, c)
    ensures |r| == c.charPos
    ensures r <= texts[c.index]
  {
    texts[c.index][..c.charPos]
  }

  /** The effect's own phrase list meets the requirement. */
  lemma PhrasesWellFormed()
    ensures WellFormed(Phrases)
  {
  }

  /** The start state satisfies the invariant and shows nothing. */
  lemma StartValid(texts: seq<string>)
    requires WellFormed(texts)
    ensures Inv(texts, Start) && Shown(texts, Start) == ""
  {
  }

  /** The first step shows the first character of the first phrase. */
  lemma FirstStep(texts: seq<string>)
    requires WellFormed(texts)
    ensures StepOf(texts, Start).shown == texts[0][..1]
    ensures StepOf(texts, Start).next == Cycle(0, 1, |texts[0]| == 1)
    ensures StepOf(texts, Start).delay == if |texts[0]| == 1 then PauseDelay else TypingDelay
  {
  }

  /** Every step keeps the invariant, and what it shows is the new state's prefix. */
  lemma StepKeepsInv(texts: seq<string>, c: Cycle)
    requires WellFormed(texts) && Inv(texts, c)
    ensures Inv(texts, StepOf(texts, c).next)
    ensures StepOf(texts, c).shown == Shown(texts, StepOf(texts, c).next)
  {
  }

  /** A typing step reveals exactly one more character. */
  lemma TypingStep(texts: seq<string>, c: Cycle)
    requires Inv(texts, c) && !c.deleting
    ensures StepOf(texts, c).next.charPos == c.charPos + 1
    ensures StepOf(texts, c).shown == texts[c.index][..c.charPos + 1]
  {
  }

  /** A deleting step hides exactly one character. */
  lemma DeletingStep(texts: seq<string>, c: Cycle)
    requires Inv(texts, c) && c.deleting
    ensures StepOf(texts, c).next.charPos == c.charPos - 1
    ensures StepOf(texts, c).shown == texts[c.index][..c.charPos - 1]
  {
  }

  /** Typing turns into deleting exactly when the whole phrase has been shown, after a pause. */
  lemma FullPhraseStartsDeleting(texts: seq<string>, c: Cycle)
    requires Inv(texts, c) && !c.deleting
    ensures StepOf(texts, c).next.deleting <==> c.charPos + 1 == |texts[c.index]|
    ensures StepOf(texts, c).next.deleting ==> StepOf(texts, c).delay == PauseDelay
  {
  }

  /** Deleting the last character moves on to the next phrase, wrapping round, typing. */
  lemma EmptiedAdvances(texts: seq<string>, c: Cycle)
    requires Inv(texts, c) && c.deleting
    ensures !StepOf(texts, c).next.deleting <==> c.charPos == 1
    ensures c.charPos == 1 ==>
      && StepOf(texts, c).next == Cycle((c.index + 1) % |texts|, 0, false)
      && StepOf(texts, c).delay == TypingDelay
    ensures c.charPos == 1 && c.index == |texts| - 1 ==> StepOf(texts, c).next.index == 0
  {
  }

  /** The phrase changes only on the step that deletes its last character. */
  lemma IndexChangesOnlyOnWrap(texts: seq<string>, c: Cycle)
    requires c.index < |texts|
    ensures StepOf(texts, c).next.index ==
      if c.deleting && c.charPos == 1 then (c.index + 1) % |texts| else c.index
  {
  }

  /** Which of the three delays a step schedules, for every state. */
  lemma StepDelay(texts: seq<string>, c: Cycle)
    requires c.index < |texts|
    ensures StepOf(texts, c).delay == PauseDelay <==> !c.deleting && c.charPos + 1 == |texts[c.index]|
    ensures StepOf(texts, c).delay == DeletingDelay <==> c.deleting && StepOf(texts, c).next.deleting
    ensures StepOf(texts, c).delay == TypingDelay <==> !StepOf(texts, c).next.deleting
  {
  }

  /** What a run of several steps shows, the delays it schedules, and where it ends. */
  datatype Trace = Trace(shown: seq<string>, delays: seq<int>, final: Cycle)

  /** Runs `m` steps from `c`. */
  function Run(texts: seq<string>, c: Cycle, m: nat): (t: Trace)
    requires c.index < |texts|
    ensures |t.shown| == |t.delays| == m
    ensures t.final.index < |texts|
    decreases m
  {
    if m == 0 then Trace([], [], c)
    else
      var s := StepOf(texts, c);
      var t := Run(texts, s.next, m - 1);
      Trace([s.shown] + t.shown, [s.delay] + t.delays, t.final)
  }

  /** Running `a + b` steps is running `a` steps and then `b` more. */
  lemma {:induction false} RunAppend(texts: seq<string>, c: Cycle, a: nat, b: nat)
    requires c.index < |texts|
    ensures var t1 := Run(texts, c, a);
            var t2 := Run(texts, t1.final, b);
            Run(texts, c, a + b) == Trace(t1.shown + t2.shown, t1.delays + t2.delays, t2.final)
    decreases a
  {
    if a > 0 {
      var s := StepOf(texts, c);
      RunAppend(texts, s.next, a - 1, b);
      var r1 := Run(texts, s.next, a - 1);
      var r2 := Run(texts, r1.final, b);
      assert Run(texts, c, a) == Trace([s.shown] + r1.shown, [s.delay] + r1.delays, r1.final);
      assert Run(texts, c, a + b) == Trace([s.shown] + (r1.shown + r2.shown), [s.delay] + (r1.delays + r2.delays), r2.final);
      assert [s.shown] + (r1.shown + r2.shown) == [s.shown] + r1.shown + r2.shown;
      assert [s.delay] + (r1.delays + r2.delays) == [s.delay] + r1.delays + r2.delays;
    }
  }

  /** Any number of steps keeps the invariant, and the last text shown is the final state's. */
  lemma {:induction false} RunKeepsInv(texts: seq<string>, c: Cycle, m: nat)
    requires WellFormed(texts) && Inv(texts, c)
    ensures Inv(texts, Run(texts, c, m).final)
    ensures m > 0 ==> Run(texts, c, m).shown[m - 1] == Shown(texts, Run(texts, c, m).final)
    decreases m
  {
    if m > 0 {
      StepKeepsInv(texts, c);
      RunKeepsInv(texts, StepOf(texts, c).next, m - 1);
    }
  }

  /** The texts shown while typing a phrase `p` on from `j` characters: `p[..j+1]` up to `p`. */
  function TypedOut(p: string, j: nat): (r: seq<string>)
    requires j <= |p|
    ensures |r| == |p| - j
    ensures forall n :: 0 <= n < |r| ==> r[n] == p[..j + n + 1]
    decreases |p| - j
  {
    if j == |p| then [] else [p[..j + 1]] + TypedOut(p, j + 1)
  }

  /** The texts shown while deleting a phrase `p` from `j` characters: `p[..j-1]` down to `""`. */
  function ErasedFrom(p: string, j: nat): (r: seq<string>)
    requires j <= |p|
    ensures |r| == j
    ensures forall n :: 0 <= n < |r| ==> r[n] == p[..j - n - 1]
  {
    if j == 0 then [] else [p[..j - 1]] + ErasedFrom(p, j - 1)
  }

  /** `n` copies of `x`. */
  function Repeat(x: int, n: nat): (r: seq<int>)
    ensures |r| == n
    ensures forall k :: 0 <= k < n ==> r[k] == x
  {
    if n == 0 then [] else [x] + Repeat(x, n - 1)
  }

  /** Typing a phrase from position `j` on: one step per character, a pause at the end, then deleting. */
  lemma {:induction false} TypingPhase(texts: seq<string>, i: nat, j: nat)
    requires i < |texts| && j < |texts[i]|
    ensures Run(texts, Cycle(i, j, false), |texts[i]| - j) ==
      Trace(TypedOut(texts[i], j),
            Repeat(TypingDelay, |texts[i]| - j - 1) + [PauseDelay],
            Cycle(i, |texts[i]|, true))
    decreases |texts[i]| - j
  {
    var p := texts[i];
    var s := StepOf(texts, Cycle(i, j, false));
    assert s.shown == p[..j + 1];
    if j + 1 < |p| {
      TypingPhase(texts, i, j + 1);
      assert Repeat(TypingDelay, |p| - j - 1) == [TypingDelay] + Repeat(TypingDelay, |p| - j - 2);
    }
  }

  /** Deleting a phrase from `j` characters: one step per character, then the next phrase, typing. */
  lemma {:induction false} DeletingPhase(texts: seq<string>, i: nat, j: nat)
    requires i < |texts| && 0 < j <= |texts[i]|
    ensures Run(texts, Cycle(i, j, true), j) ==
      Trace(ErasedFrom(texts[i], j),
            Repeat(DeletingDelay, j - 1) + [TypingDelay],
            Cycle((i + 1) % |texts|, 0, false))
    decreases j
  {
    var p := texts[i];
    var s := StepOf(texts, Cycle(i, j, true));
    assert s.shown == p[..j - 1];
    if j > 1 {
      DeletingPhase(texts, i, j - 1);
      assert Repeat(DeletingDelay, j - 1) == [DeletingDelay] + Repeat(DeletingDelay, j - 2);
    }
  }

  /**
    From the start of a phrase of length `k`, exactly `2k` steps show its first
    1, 2, ..., k characters and then k-1, ..., 0 characters, and end at the
    start of the next phrase (the first after the last).
   */
  lemma PhraseCycle(texts: seq<string>, i: nat)
    requires WellFormed(texts) && i < |texts|
    ensures var k := |texts[i]|;
            var t := Run(texts, Cycle(i, 0, false), 2 * k);
            && t.final == Cycle((i + 1) % |texts|, 0, false)
            && |t.shown| == 2 * k
            && (forall n :: 0 <= n < k ==> t.shown[n] == texts[i][..n + 1])
            && (forall n :: k <= n < 2 * k ==> t.shown[n] == texts[i][..2 * k - n - 1])
            && t.delays == Repeat(TypingDelay, k - 1) + [PauseDelay] + Repeat(DeletingDelay, k - 1) + [TypingDelay]
  {
    var k := |texts[i]|;
    assert k > 0;
    RunAppend(texts, Cycle(i, 0, false), k, k);
    TypingPhase(texts, i, 0);
    DeletingPhase(texts, i, k);
  }

  /**
    Why every phrase must be non-empty: on an empty phrase the full-length
    test never succeeds, so the effect keeps typing that phrase forever.
   */
  lemma {:induction false} EmptyPhraseNeverDeletes(texts: seq<string>, i: nat, j: nat, m: nat)
    requires i < |texts| && texts[i] == "" && 0 <= j
    ensures Run(texts, Cycle(i, j, false), m).final == Cycle(i, j + m, false)
    ensures forall n :: 0 <= n < m ==> Run(texts, Cycle(i, j, false), m).shown[n] == ""
    decreases m
  {
    if m > 0 {
      EmptyPhraseNeverDeletes(texts, i, j + 1, m - 1);
    }
  }

  /**
    The effect's mutable state, as the closure of the mounted view holds it,
    together with the text currently rendered.
   */
  class Cycler {
    const texts: seq<string>
    var index: nat
    var charPos: int
    var deleting: bool
    var displayed: string

    /** The machine state held in the fields. */
    function State(): Cycle
      reads this
    {
      Cycle(index, charPos, deleting)
    }

    /** The object invariant: a well-formed list, a valid state, and the rendered text it stands for. */
    ghost predicate Valid()
      reads this
    {
      WellFormed(texts) && Inv(texts, State()) && displayed == Shown(texts, State())
    }

    /**
      Mounting the view: first phrase, nothing shown, typing.  The page
      immediately calls the step once; here that first call is the client's
      first `Step`.
     */
    constructor (texts: seq<string>)
      requires WellFormed(texts)
      ensures Valid()
      ensures this.texts == texts && State() == Start && displayed == ""
    {
      this.texts := texts;
      index, charPos, deleting := 0, 0, false;
      displayed := "";
    }

    /** One call of the step function; returns the delay before the next call. */
    method Step() returns (delay: int)
      requires Valid()
      modifies this
      ensures Valid()
      ensures State() == StepOf(texts, old(State())).next
      ensures displayed == StepOf(texts, old(State())).shown
      ensures delay == StepOf(texts, old(State())).delay
    {
      var text := texts[index];
      if !deleting {
        displayed := Substring(text, 0, charPos + 1);
        charPos := charPos + 1;
        if charPos == |text| {
          deleting := true;
          return PauseDelay;
        }
      } else {
        displayed := Substring(text, 0, charPos - 1);
        charPos := charPos - 1;
        if charPos == 0 {
          deleting := false;
          index := (index + 1) % |texts|;
        }
      }
      delay := if deleting then DeletingDelay else TypingDelay;
    }
  }

  /** The full cycle of a two-letter phrase, spelled out. */
  lemma TwoLetterCycle(texts: seq<string>, i: nat)
    requires WellFormed(texts) && i < |texts| && |texts[i]| == 2
    ensures Run(texts, Cycle(i, 0, false), 4) ==
      Trace([texts[i][..1], texts[i], texts[i][..1], ""],
            [TypingDelay, PauseDelay, DeletingDelay, TypingDelay],
            Cycle((i + 1) % |texts|, 0, false))
  {
    PhraseCycle(texts, i);
    var t := Run(texts, Cycle(i, 0, false), 4);
    assert t.shown[1] == texts[i][..2] == texts[i];
    assert Repeat(TypingDelay, 1) == [TypingDelay] && Repeat(DeletingDelay, 1) == [DeletingDelay];
  }

  /** Nine steps over two two-letter phrases, from the start. */
  lemma TwoPhraseRun()
    ensures Run(["Hi", "Yo"], Start, 9) ==
      Trace(["H", "Hi", "H", "", "Y", "Yo", "Y", "", "H"],
            [150, 2000, 100, 150, 150, 2000, 100, 150, 150],
            Cycle(0, 1, false))
  {
    var texts := ["Hi", "Yo"];
    var c1 := Cycle(1, 0, false);
    assert "Hi"[..1] == "H" && "Yo"[..1] == "Y";
    TwoLetterCycle(texts, 0);
    var a := Run(texts, Start, 4);
    assert a == Trace(["H", "Hi", "H", ""], [150, 2000, 100, 150], c1);
    TwoLetterCycle(texts, 1);
    var b := Run(texts, c1, 4);
    assert b == Trace(["Y", "Yo", "Y", ""], [150, 2000, 100, 150], Start);
    var c := Run(texts, Start, 1);
    assert c == Trace(["H"], [150], Cycle(0, 1, false));
    RunAppend(texts, c1, 4, 1);
    assert Run(texts, c1, 5) == Trace(b.shown + c.shown, b.delays + c.delays, c.final);
    RunAppend(texts, Start, 4, 5);
  }

  /**
    A client of the class: mounting with two two-letter phrases and stepping
    nine times shows each phrase typed, held, deleted, and then the first again.
   */
  method TwoPhraseScenario() returns (shown: seq<string>, delays: seq<int>)
    ensures shown == ["H", "Hi", "H", "", "Y", "Yo", "Y", "", "H"]
    ensures delays == [150, 2000, 100, 150, 150, 2000, 100, 150, 150]
  {
    var cycler := new Cycler(["Hi", "Yo"]);
    shown, delays := [], [];
    var n := 0;
    while n < 9
      invariant 0 <= n <= 9
      invariant cycler.Valid() && cycler.texts == ["Hi", "Yo"]
      invariant cycler.State() == Run(["Hi", "Yo"], Start, n).final
      invariant shown == Run(["Hi", "Yo"], Start, n).shown
      invariant delays == Run(["Hi", "Yo"], Start, n).delays
    {
      RunAppend(["Hi", "Yo"], Start, n, 1);
      var d := cycler.Step();
      shown, delays := shown + [cycler.displayed], delays + [d];
      n := n + 1;
    }
    TwoPhraseRun();
  }
}
