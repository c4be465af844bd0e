/**
 * The typewriter animation of the hero banner (src/App.tsx, `typeWriter`).
 *
 * The animator types the current title one character at a time, pauses on the
 * full title, deletes it one character at a time, pauses on the empty text and
 * moves on to the next title, forever. Each step writes the displayed text and
 * returns the delay, in milliseconds, before the next step is scheduled.
 */
module Typewriter {

  /** The fixed list of role titles, cycled in this order. */
  const Titles: seq<string> := ["Full-Stack Developer", "AI/ML Enthusiast", "Software Engineer"]

  const TypingDelay: int := 100
  const DeletingDelay: int := 50
  const FullPause: int := 2000
  const EmptyPause: int := 500

  lemma TitleLengths()
    ensures |Titles| == 3
    ensures |Titles[0]| == 20 && |Titles[1]| == 16 && |Titles[2]| == 17
  {
  }

  function Clamp(x: int, len: nat): (r: nat)
    ensures r <= len
    ensures 0 <= x <= len ==> r == x
  {
    if x < 0 then 0 else if x > len then len else x
  }

  /**
   * JavaScript's String.prototype.substring: both bounds are clamped to
   * [0, |s|] and swapped when the first exceeds the second.
   */
  function JsSubstring(s: string, start: int, end: int): (r: string)
    ensures |r| <= |s|
    ensures 0 <= start <= end <= |s| ==> r == s[start..end]
    ensures end <= 0 && start <= 0 ==> r == ""
  {
    var a := Clamp(start, |s|);
    var b := Clamp(end, |s|);
    if a <= b then s[a..b] else s[b..a]
  }

  /** The animator's state: which title, how many characters shown, and whether it is deleting. */
  datatype State = State(titleIndex: int, charIndex: int, isDeleting: bool)

  /**
   * The state invariant: the title index is in range, the character index lies
   * within the title, strictly below its length while typing and at least one
   * while deleting.
   */
  predicate Inv(s: State) {
    0 <= s.titleIndex < |Titles| &&
    0 <= s.charIndex <= |Titles[s.titleIndex]| &&
    (!s.isDeleting ==> s.charIndex < |Titles[s.titleIndex]|) &&
    (s.isDeleting ==> 1 <= s.charIndex)
  }

  /** The initial state of the animator. */
  const Start: State := State(0, 0, false)

  /** The text a state stands for: the first charIndex characters of its title. */
  function Shown(s: State): (r: string)
    requires Inv(s)
    ensures |r| == s.charIndex
    ensures r <= Titles[s.titleIndex]
  {
    Titles[s.titleIndex][..s.charIndex]
  }

  /** One step: the state after it, the text it writes and the delay it picks. */
  datatype Tick = Tick(next: State, text: string, delay: int)

  /**
   * The four-phase machine, as a reference definition. Typing adds one
   * character; the character that completes the title pauses for FullPause and
   * switches to deleting. Deleting removes one character; the step that empties
   * the text pauses for EmptyPause, switches to typing and advances the title.
   */
  function Next(s: State): (t: Tick)
    requires Inv(s)
    ensures Inv(t.next)
    ensures t.text == Shown(t.next)
    ensures t.text <= Titles[s.titleIndex]
    ensures t.next.charIndex == if s.isDeleting then s.charIndex - 1 else s.charIndex + 1
  {
    var title := Titles[s.titleIndex];
    if !s.isDeleting then
      var k := s.charIndex + 1;
      if k == |title| then Tick(State(s.titleIndex, k, true), title[..k], FullPause)
      else Tick(State(s.titleIndex, k, false), title[..k], TypingDelay)
    else
      var k := s.charIndex - 1;
      if k == 0 then Tick(State((s.titleIndex + 1) % |Titles|, 0, false), "", EmptyPause)
      else Tick(State(s.titleIndex, k, true), title[..k], DeletingDelay)
  }

  /**
   * The delay of a step is determined by the phase change it makes: 2000 exactly
   * on the step that switches to deleting (the title is complete), 500 exactly on
   * the step that switches back to typing (the text is empty), and otherwise 100
   * while typing and 50 while deleting. The title index changes only on the
   * emptying step, and then becomes the next one modulo the number of titles.
   */
  lemma StepDelay(s: State)
    requires Inv(s)
    ensures var t := Next(s);
      && (t.delay == FullPause <==> !s.isDeleting && t.next.isDeleting)
      && (t.delay == FullPause <==> !s.isDeleting && t.text == Titles[s.titleIndex])
      && (t.delay == EmptyPause <==> s.isDeleting && !t.next.isDeleting)
      && (t.delay == EmptyPause <==> s.isDeleting && t.text == "")
      && (t.delay == TypingDelay <==> !s.isDeleting && !t.next.isDeleting)
      && (t.delay == DeletingDelay <==> s.isDeleting && t.next.isDeleting)
      && (t.next.titleIndex == s.titleIndex <==> t.delay != EmptyPause)
      && (t.delay == EmptyPause ==> t.next.titleIndex == (s.titleIndex + 1) % 3)
  {
    TitleLengths();
  }

  /** The state after n steps. */
  function Run(s: State, n: nat): (r: State)
    requires Inv(s)
    ensures Inv(r)
    decreases n
  {
    if n == 0 then s else Run(Next(s).next, n - 1)
  }

  /** The sum of the delays of the first n steps. */
  function RunDelay(s: State, n: nat): int
    requires Inv(s)
    decreases n
  {
    if n == 0 then 0 else Next(s).delay + RunDelay(Next(s).next, n - 1)
  }

  /** The state at the beginning of title i. */
  function TitleStart(i: int): (s: State)
    requires 0 <= i < |Titles|
    ensures Inv(s)
  {
    TitleLengths();
    State(i, 0, false)
  }

  /**
   * Within one cycle of title i (length L): after n <= L steps, n characters
   * are shown while typing (the full title and deleting at n = L); after
   * L <= n < 2L steps, 2L - n characters are shown while deleting; after 2L
   * steps the animator is at the start of the next title.
   */
  lemma {:induction false} CycleShape(i: int, n: nat)
    requires 0 <= i < |Titles|
    requires n <= 2 * |Titles[i]|
    ensures var L := |Titles[i]|;
      Run(TitleStart(i), n) ==
        if n < L then State(i, n, false)
        else if n < 2 * L then State(i, 2 * L - n, true)
        else TitleStart((i + 1) % |Titles|)
  {
    TitleLengths();
    if n > 0 {
      CycleShape(i, n - 1);
      RunLast(TitleStart(i), n - 1);
    }
  }

  /** Running n + 1 steps is running n steps and then one more. */
  lemma {:induction false} RunLast(s: State, n: nat)
    requires Inv(s)
    ensures Run(s, n + 1) == Next(Run(s, n)).next
    decreases n
  {
    if n > 0 {
      RunLast(Next(s).next, n - 1);
    }
  }

  /**
   * Exactly 2L steps take the start of title i to the start of the next title:
   * no earlier step gets there, and step L shows the full title.
   */
  lemma Cycle(i: int)
    requires 0 <= i < |Titles|
    ensures Run(TitleStart(i), 2 * |Titles[i]|) == TitleStart((i + 1) % |Titles|)
    ensures forall n: nat :: 0 < n < 2 * |Titles[i]| ==> Run(TitleStart(i), n).charIndex > 0
    ensures Shown(Run(TitleStart(i), |Titles[i]|)) == Titles[i]
  {
    CycleShape(i, 2 * |Titles[i]|);
    CycleShape(i, |Titles[i]|);
    forall n: nat | 0 < n < 2 * |Titles[i]|
      ensures Run(TitleStart(i), n).charIndex > 0
    {
      CycleShape(i, n);
    }
  }

  /** The delays add up over consecutive runs. */
  lemma {:induction false} RunDelayAdd(s: State, m: nat, n: nat)
    requires Inv(s)
    ensures RunDelay(s, m + n) == RunDelay(s, m) + RunDelay(Run(s, m), n)
    ensures Run(s, m + n) == Run(Run(s, m), n)
    decreases m
  {
    if m > 0 {
      RunDelayAdd(Next(s).next, m - 1, n);
    }
  }

  /** The delays of the typing half of a cycle, from k characters shown. */
  lemma {:induction false} TypingDelays(i: int, k: nat)
    requires 0 <= i < |Titles| && k < |Titles[i]|
    ensures Inv(State(i, k, false))
    ensures RunDelay(State(i, k, false), |Titles[i]| - k) == TypingDelay * (|Titles[i]| - k - 1) + FullPause
    decreases |Titles[i]| - k
  {
    if k + 1 < |Titles[i]| {
      TypingDelays(i, k + 1);
    }
  }

  /** The delays of the deleting half of a cycle, from k characters shown. */
  lemma {:induction false} DeletingDelays(i: int, k: nat)
    requires 0 <= i < |Titles| && 1 <= k <= |Titles[i]|
    ensures Inv(State(i, k, true))
    ensures RunDelay(State(i, k, true), k) == DeletingDelay * (k - 1) + EmptyPause
  {
    if k > 1 {
      DeletingDelays(i, k - 1);
    }
  }

  /** One full cycle of title i of length L lasts 100(L-1) + 2000 + 50(L-1) + 500 milliseconds. */
  lemma CycleDuration(i: int)
    requires 0 <= i < |Titles|
    ensures var L := |Titles[i]|;
      RunDelay(TitleStart(i), 2 * L) == TypingDelay * (L - 1) + FullPause + DeletingDelay * (L - 1) + EmptyPause
  {
    var L := |Titles[i]|;
    TitleLengths();
    RunDelayAdd(TitleStart(i), L, L);
    CycleShape(i, L);
    TypingDelays(i, 0);
    DeletingDelays(i, L);
  }

  /** The number of steps of k consecutive cycles starting at title i. */
  function CycleSteps(i: int, k: nat): nat
    requires 0 <= i < |Titles|
    decreases k
  {
    if k == 0 then 0 else 2 * |Titles[i]| + CycleSteps((i + 1) % |Titles|, k - 1)
  }

  /** The titles are visited in the order i, i+1, i+2, ... modulo 3: after k cycles the animator starts title (i + k) % 3. */
  lemma {:induction false} TitleOrder(i: int, k: nat)
    requires 0 <= i < |Titles|
    ensures Run(TitleStart(i), CycleSteps(i, k)) == TitleStart((i + k) % |Titles|)
    decreases k
  {
    if k > 0 {
      var j := (i + 1) % |Titles|;
      var rest := CycleSteps(j, k - 1);
      assert CycleSteps(i, k) == 2 * |Titles[i]| + rest;
      CycleThen(i, rest);
      TitleOrder(j, k - 1);
      NextTitleMod(i, k);
    }
  }

  /** Running a full cycle of title i and then n more steps is running n steps from the next title. */
  lemma CycleThen(i: int, n: nat)
    requires 0 <= i < |Titles|
    ensures Run(TitleStart(i), 2 * |Titles[i]| + n) == Run(TitleStart((i + 1) % |Titles|), n)
  {
    RunDelayAdd(TitleStart(i), 2 * |Titles[i]|, n);
    CycleShape(i, 2 * |Titles[i]|);
  }

  lemma NextTitleMod(i: int, k: nat)
    requires 0 <= i < 3 && k > 0
    ensures ((i + 1) % 3 + (k - 1)) % 3 == (i + k) % 3
  {
  }

  /** The total of a sequence of delays. */
  function Sum(delays: seq<int>): int
    decreases |delays|
  {
    if delays == [] then 0 else Sum(delays[..|delays| - 1]) + delays[|delays| - 1]
  }

  /**
   * The animator bound to the typing element: the three closure variables of
   * `typeWriter` and the element's text content.
   */
  class Animator {
    var titleIndex: int
    var charIndex: int
    var isDeleting: bool
    var text: string

    function Snapshot(): State
      reads this
    {
      State(titleIndex, charIndex, isDeleting)
    }

    /** The state invariant holds and the element shows the prefix the state stands for. */
    predicate Valid()
      reads this
    {
      Inv(Snapshot()) && text == Shown(Snapshot())
    }

    /** Attaching to the (initially empty) typing element, before the first step. */
    constructor ()
      ensures Valid()
      ensures Snapshot() == Start && text == ""
    {
      titleIndex, charIndex, isDeleting := 0, 0, false;
      text := "";
    }

    /** One call of `typeWriter`; the returned delay is what it hands to setTimeout. */
    method Step() returns (delay: int)
      requires Valid()
      modifies this
      ensures Valid()
      ensures Tick(Snapshot(), text, delay) == Next(old(Snapshot()))
      ensures text <= Titles[old(titleIndex)]
    {
      var currentTitle := Titles[titleIndex];

      if isDeleting {
        text := JsSubstring(currentTitle, 0, charIndex - 1);
        charIndex := charIndex - 1;
      } else {
        text := JsSubstring(currentTitle, 0, charIndex + 1);
        charIndex := charIndex + 1;
      }

      var typeSpeed := 100;
      if isDeleting {
        typeSpeed := typeSpeed / 2;
      }

      if !isDeleting && charIndex == |currentTitle| {
        typeSpeed := 2000;
        isDeleting := true;
      } else if isDeleting && charIndex == 0 {
        isDeleting := false;
        titleIndex := (titleIndex + 1) % |Titles|;
        typeSpeed := 500;
      }

      delay := typeSpeed;
    }

    /** The setTimeout chain driven for n steps; returns the delays it scheduled. */
    method Drive(n: nat) returns (delays: seq<int>)
      requires Valid()
      modifies this
      ensures Valid()
      ensures Snapshot() == Run(old(Snapshot()), n)
      ensures |delays| == n
      ensures forall k :: 0 <= k < n ==> delays[k] == Next(Run(old(Snapshot()), k)).delay
      ensures Sum(delays) == RunDelay(old(Snapshot()), n)
    {
      ghost var s0 := Snapshot();
      delays := [];
      var i := 0;
      while i < n
        invariant 0 <= i <= n
        invariant Valid()
        invariant Snapshot() == Run(s0, i)
        invariant |delays| == i
        invariant forall k :: 0 <= k < i ==> delays[k] == Next(Run(s0, k)).delay
        invariant Sum(delays) == RunDelay(s0, i)
      {
        RunLast(s0, i);
        RunDelayAdd(s0, i, 1);
        var d := Step();
        delays := delays + [d];
        i := i + 1;
      }
    }
  }
}
