/**
 The show/hide rule of the site's sticky header (`hasScrolled`), pulled out as
 a pure decision. Its inputs are the scroll position recorded at the previous
 decision, the current scroll position `st` and the header's outer height; its
 outputs are what happens to the header's CSS `top` and the new recorded
 position. Positions and heights are JavaScript numbers, modelled as reals.
 */
module HeaderRule {

  /** Scroll movements of at most this many pixels are ignored. */
  const Delta: real := 5.0

  function Abs(x: real): real {
    if x < 0.0 then -x else x
  }

  /** What one decision does to the header. */
  datatype HeaderAction =
    | Untouched             // `top` is not written
    | ShowAtTop             // `top` is set to 0
    | HideAbove(height: real) // `top` is set to minus the header's height

  /** The header's CSS `top` as far as the script knows it. */
  datatype HeaderTop = Unset | TopPx(px: real)

  datatype Decision = Decision(action: HeaderAction, lastScrollTop: real)

  /** The effect of an action on the header's `top`. */
  function Apply(a: HeaderAction, top: HeaderTop): (t: HeaderTop)
    ensures a == Untouched ==> t == top
    ensures a != Untouched ==> t.TopPx?
    ensures a == ShowAtTop ==> t == TopPx(0.0)
    ensures a.HideAbove? ==> t == TopPx(-a.height)
  {
    match a
    case Untouched => top
    case ShowAtTop => TopPx(0.0)
    case HideAbove(h) => TopPx(-h)
  }

  /**
   One run of the rule. A movement of at most `Delta` in either direction
   leaves the header alone; moving up by more shows it; moving down by more
   shows it while still within the top third of the header's height and hides
   it otherwise. The recorded position becomes `st` on every path.
   */
  function HasScrolled(lastScrollTop: real, st: real, headerHeight: real): (d: Decision)
    ensures d.lastScrollTop == st
    ensures d.action == Untouched <==> lastScrollTop - Delta <= st <= lastScrollTop + Delta
    ensures st < lastScrollTop - Delta ==> d.action == ShowAtTop
    ensures st > lastScrollTop + Delta ==> (d.action == ShowAtTop <==> st <= headerHeight / 3.0)
    ensures d.action.HideAbove? <==> st > lastScrollTop + Delta && st > headerHeight / 3.0
    ensures d.action.HideAbove? ==> d.action.height == headerHeight
  {
    if Abs(lastScrollTop - st) <= Delta then Decision(Untouched, st)
    else if st - lastScrollTop < 0.0 then Decision(ShowAtTop, st)
    else if st <= headerHeight / 3.0 then Decision(ShowAtTop, st)
    else Decision(HideAbove(headerHeight), st)
  }

  /** Outside the dead band exactly one write to `top` happens, and it is
      either 0 or minus the header's height. A direct consequence of the
      contract of `HasScrolled` and `Apply`, stated on its own as a property
      of the rule. */
  lemma MovedMeansOneWrite(lastScrollTop: real, st: real, headerHeight: real)
    requires Abs(lastScrollTop - st) > Delta
    ensures var t := Apply(HasScrolled(lastScrollTop, st, headerHeight).action, Unset);
            t == TopPx(0.0) || t == TopPx(-headerHeight)
    ensures HasScrolled(lastScrollTop, st, headerHeight).action != Untouched
  {
  }

  /** Deciding again at the position just recorded never moves the header:
      the second movement is 0, inside the dead band. A direct consequence of
      the contract of `HasScrolled`. */
  lemma DecisionSettles(lastScrollTop: real, st: real, h: real, h': real)
    ensures var d := HasScrolled(lastScrollTop, st, h);
            HasScrolled(d.lastScrollTop, st, h').action == Untouched
  {
  }
}
