/** The light/dark theme switch of the portfolio page (src/App.tsx, the theme toggle listener). */
module Theme {

  const Dark: string := "dark"
  const Light: string := "light"

  /** The initial theme of the mounted view. */
  const InitialTheme: string := Dark

  /** The two values the theme is meant to take. */
  predicate IsTheme(t: string) {
    t == Dark || t == Light
  }

  /** The new theme chosen by one click: "dark" becomes "light", every other value becomes "dark". */
  function Flip(theme: string): (r: string)
    ensures IsTheme(r)
    ensures r != theme
  {
    if theme == Dark then Light else Dark
  }

  /** What one click produces: the new theme state and the value written to the root's data-theme attribute. */
  datatype Toggled = Toggled(theme: string, attribute: string)

  function Toggle(theme: string): (r: Toggled)
    ensures r.attribute == r.theme
    ensures IsTheme(r.theme) && r.theme != theme
    ensures theme == Light ==> r.theme == Dark
  {
    var newTheme := Flip(theme);
    Toggled(newTheme, newTheme)
  }

  /** Flipping twice restores any of the two theme values. */
  lemma FlipInvolutive(t: string)
    requires IsTheme(t)
    ensures Flip(Flip(t)) == t
  {
  }

  /** Any value that is not "dark" (including a corrupted one) is sent to "dark". */
  lemma FlipNonDark(t: string)
    requires t != Dark
    ensures Flip(t) == Dark && Flip(Flip(t)) == Light
  {
  }

  /** The theme after n clicks. */
  function FlipTimes(t: string, n: nat): string
  {
    if n == 0 then t else Flip(FlipTimes(t, n - 1))
  }

  /** The theme alternates strictly: after n clicks it is the start value iff n is even. */
  lemma {:induction false} FlipTimesParity(t: string, n: nat)
    requires IsTheme(t)
    ensures FlipTimes(t, n) == if n % 2 == 0 then t else Flip(t)
    ensures IsTheme(FlipTimes(t, n))
  {
    if n > 0 {
      FlipTimesParity(t, n - 1);
      FlipInvolutive(t);
    }
  }

  /** From the initial theme, an even number of clicks shows "dark" and an odd number "light". */
  lemma {:induction false} FromInitial(n: nat)
    ensures FlipTimes(InitialTheme, n) == if n % 2 == 0 then Dark else Light
  {
    FlipTimesParity(InitialTheme, n);
  }

  /**
   * One click when several theme listeners are attached, each having captured
   * the theme of the render it was registered in (oldest first): each listener
   * in turn writes the flip of its captured theme to the state and to the
   * attribute, and the last write stays.
   */
  function ClickStacked(captured: seq<string>, before: Toggled): (r: Toggled)
    ensures captured != [] ==> r.attribute == r.theme && IsTheme(r.theme)
    decreases |captured|
  {
    if captured == [] then before else ClickStacked(captured[1..], Toggle(captured[0]))
  }

  /**
   * With stacked listeners the outcome of a click is decided by the newest one
   * alone; since the newest listener captured the current theme, the click
   * still toggles the current theme.
   */
  lemma {:induction false} ClickStackedNewestWins(captured: seq<string>, before: Toggled)
    requires captured != []
    ensures ClickStacked(captured, before) == Toggle(captured[|captured| - 1])
    ensures ClickStacked(captured, before).attribute == ClickStacked(captured, before).theme
    decreases |captured|
  {
    if |captured| > 1 {
      ClickStackedNewestWins(captured[1..], Toggle(captured[0]));
    }
  }
}
