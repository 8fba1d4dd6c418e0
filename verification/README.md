# Sticky header and selector escape of the tarting.xyz site script

This project models the logic of the site's header script `static/js/header.js`:

- `jq`, which escapes an element id for use in a jQuery selector by putting one
  backslash in front of each of the seven characters `:` `.` `[` `]` `,` `=` `@`
  (module `SelectorEscape`, file `selector_escape.dfy`);
- `hasScrolled`, the rule that hides the fixed header when the page is scrolled
  down and shows it again when it is scrolled up, as a pure decision over the
  previous recorded position, the current position and the header's height
  (module `HeaderRule`, file `header_rule.dfy`);
- the `didScroll` flag between the window's scroll handler and the 250 ms poll
  timer, as a state machine driven by a sequence of `Scroll` and `Tick` events
  (module `ScrollPoll`, file `scroll_poll.dfy`).

Scroll positions and heights are JavaScript numbers and are modelled as reals.
The page's scroll position and the header's outer height, which the script reads
from the DOM inside `hasScrolled`, are carried by each `Tick` event. The header's
CSS `top` is part of the state: `Unset` until the script first writes it, then
`TopPx(v)`. `didScroll` starts out `undefined` in the script, which the timer's
`if` treats as false, so the model starts with the flag down; the recorded
position starts at 0.

The escape is specified by what it does to each character, not by regular
expression semantics: the pattern is a global alternation of single characters,
so every occurrence is replaced on its own and no match overlaps another.

## Model

| member | source | states |
|---|---|---|
| SelectorEscape.Jq | static/js/header.js:41-43 | the escaped id is as long as the id plus one for each of the seven characters it holds |
| SelectorEscape.JqPlacesEveryChar | static/js/header.js:42 | the i-th character of the id sits at position i plus the number of the seven characters before it, preceded by exactly one inserted backslash when it is one of the seven and copied unchanged otherwise, so order is kept |
| SelectorEscape.JqLeavesNoBareMeta | static/js/header.js:42 | every one of the seven characters in the output has a backslash immediately before it |
| SelectorEscape.JqAppend | static/js/header.js:42 | escaping a concatenation is the concatenation of the escapes, as the replacement is global |
| SelectorEscape.JqIdentityIff | static/js/header.js:42 | an id comes back unchanged if and only if it holds none of the seven characters |
| SelectorEscape.JqFixesMetaFree | static/js/header.js:42 | an id without any of the seven characters is returned as it is |
| SelectorEscape.Unescape | static/js/header.js:42 | the inverse scan, dropping each backslash followed by one of the seven characters, never lengthens its input |
| SelectorEscape.UnescapeJq | static/js/header.js:42 | the inverse scan applied to the escaped id gives back the original id, including ids that already contain backslashes |
| SelectorEscape.JqInjective | static/js/header.js:42 | two different ids never escape to the same selector |
| HeaderRule.Apply | static/js/header.js:29-33 | leaving the header alone keeps its top; showing sets it to 0; hiding sets it to minus the height |
| HeaderRule.HasScrolled | static/js/header.js:6-38 | with a dead band of 5: within the band the header is untouched; above the band it is shown; below the band it is shown if and only if the position is at most a third of the header height, and hidden at minus that height otherwise; the recorded position becomes the current one on every path |
| HeaderRule.MovedMeansOneWrite | static/js/header.js:28-34 | outside the dead band exactly one write to top happens, and its value is 0 or minus the header height |
| HeaderRule.DecisionSettles | static/js/header.js:25-27 | running the rule again at the position just recorded never moves the header |
| ScrollPoll.OnScroll | static/js/header.js:10-12 | a scroll event raises the flag and changes nothing else |
| ScrollPoll.OnTick | static/js/header.js:15-20 | a tick with the flag down changes nothing; with the flag up it applies the rule once, records the position and lowers the flag |
| ScrollPoll.RunAppend | static/js/header.js:10-20 | processing two event sequences one after the other is processing their concatenation |
| ScrollPoll.IdleTicksChangeNothing | static/js/header.js:16 | any number of ticks with no scroll pending leave the whole state as it was |
| ScrollPoll.TicksBeforeFirstScroll | static/js/header.js:3-20 | ticks before the first scroll leave the header's top unwritten, the recorded position at its initial 0 and the flag down |
| ScrollPoll.ScrollsCoalesce | static/js/header.js:10-18 | any burst of one or more scroll events before a tick has the effect of a single one |
| ScrollPoll.ScrollThenTick | static/js/header.js:10-20 | a scroll followed by a tick gives the recorded current position, a lowered flag and the top the rule decides |
| ScrollPoll.PendingScroll | static/js/header.js:10-20 | after a run the flag is up if and only if some scroll event has no tick after it, or the flag was up and no tick came |
| ScrollPoll.RecordedPositionIsRead | static/js/header.js:26-36 | the recorded position is always the initial one or a position read by some tick |
| ScrollPoll.TopStaysInRange | static/js/header.js:29-33 | the header's top is always its initial value, 0, or minus a height read by some tick |
| ScrollPoll.JitterNeverMovesHeader | static/js/header.js:25-27 | while every position a tick reads stays in one band of width 5 holding the recorded position, the header never moves |
| ScrollPoll.SlowScrollNeverMovesHeader | static/js/header.js:25-27 | because the position is recorded even when the movement is ignored, scrolling at most 5 per tick never moves the header, however far the page travels |

## Left out

- `content/repository/isochron/yorkfit/errorellipse.py` as a whole: it is floating-point geometry (eigenvalues, `atan`, square roots, `cos`/`sin`, `arccos`, vector norms, IEEE division by zero and NaN), which has no counterpart over Dafny's exact reals.
- The DOM and jQuery effects of `hasScrolled`: reading `scrollTop` and `outerHeight` becomes the position and height carried by a tick, and writing `css("top", …)` becomes a `HeaderAction` applied to the modelled `top`.
- The timing of `setInterval` (250 ms) and the binding of the scroll handler: only the order of scroll events and ticks is modelled. The browser runs handlers one at a time, so each event is one atomic step.
- The anchor-click handler (`static/js/header.js:45-58`): it prevents the default action, looks up the target, passes `link.text` (jQuery's `text` method, uncalled) to `console.log`, reads the root font size, computes the target's offset top minus the header height and the font size, and animates the scroll to it; it is user-interface code built on the DOM, and its only modelled part is the call to `jq`.
- HeaderRule.HasScrolled: compares over exact reals, while the script computes `Math.abs(lastScrollTop - st)` and `outerHeight()/3.0` in IEEE doubles, so at the boundaries of the 5-pixel band and of the one-third threshold the rounded value can differ from the exact one (for example 100/3.0 rounds up to 33.333333333333336, and |0.2 - 5.2| rounds to exactly 5). Rounding is monotone, so the difference has a direction: where the model leaves the header alone, the script does too; where the model shows it, the script shows it or leaves it alone; where the model hides it, the script may hide it, show it or leave it alone. In particular `JitterNeverMovesHeader` and `SlowScrollNeverMovesHeader` hold for the script as well.
- NaN and infinite scroll positions or heights: the model uses real numbers, so comparisons with NaN (which are all false in JavaScript) are not represented.
- The globals `didResize` and `headerHeight` are declared by the script but never used by its logic, so they are not part of the state.
- JavaScript strings are sequences of UTF-16 code units; the model uses Dafny characters. The seven escaped characters are all ASCII, so this makes no difference to the escape.
