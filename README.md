# Landing page animation and control logic, in Dafny

The landing page is mostly static markup. Two of its components hold real logic,
and this project models that logic and proves properties of it.

- **The cost calculator** (`components/CalculatorSection.tsx`) has three parts:
  - `QuantumControl`, a bounded step control. It has a value with min, max and
    step, a twelve-segment bar derived from the value, and + and - buttons
    (module `QuantumControl`, file `quantum_control.dfy`).
  - The derived monthly cost (module `CostStats`, file `cost.dfy`).
  - The `useAnimatedValue` hook. It eases the displayed figure towards a new
    target over animation frames (module `Animation`, file `animated_value.dfy`).
- **The hero typewriter** (`components/HeroSection.tsx`) is an interval callback.
  It reveals the headline one character per tick and clears itself when done.
  The revealed text is then shown as a plain span and a highlighted span
  (module `HeroTypewriter`, file `hero_typewriter.dfy`).

The modelling choices:

- Integer props (value, min, max, step) are unbounded `int`s.
- The segment count is computed over exact reals. `Math.round` is `floor(x + 1/2)`.
- The monthly cost and the animation are over `real`.
- The easing curve `1 - 2^(-10p)` is a parameter of type `real -> real`. The model
  assumes only what `EaseOk` states: the curve is 0 at 0 and stays in [0, 1] on
  [0, 1]. The code forces the eased value to exactly 1 at progress 1.
- Animation frames and interval ticks are explicit method calls. A frame carries
  its timestamp.
- The typewriter's state is the closure's `index`, the published `displayedText`
  and whether the interval is still set. A ghost counter of firings ties the
  class to the pure function `AfterTicks`.
- `Animation.AnimatedValue.Step` requires that a frame's timestamp is not earlier
  than the start time already recorded for the run. The browser gives
  animation-frame timestamps in non-decreasing order.

Behaviour of the code that the model keeps:

- `handleIncrement` does not clamp to max. When `value + step > max` it does
  nothing, and `handleDecrement` mirrors this at min. So repeated presses stop at
  `max - (max - value) % step`, which is max itself only when the step divides the
  gap (`IncrementsSettle`).
- Tick k publishes the prefix of length k - 1. The first tick shows the empty
  text, the full text appears at tick `|fullText| + 1`, and the interval clears at
  tick `|fullText| + 2`. For "AB" the ticks show "", "A", "AB", and the fourth
  tick clears the interval (`TwoLetterRun`).
- Each run of the effect schedules its own chain of frames. No run ever cancels
  an earlier run's chain.
- The frame step divides by the duration.
- The range input's `onChange` forwards the input's value as it is.

## Model

| member | source | states |
|---|---|---|
| `QuantumControl.Round` | components/CalculatorSection.tsx:59-61 | Math.round: x lies in [r - 1/2, r + 1/2), so halves round up |
| `QuantumControl.ActiveSegments` | components/CalculatorSection.tsx:58-61 | for min < max and a value in range the segment count is in [0, 12], 0 at min and 12 at max |
| `QuantumControl.ActiveSegmentsMonotone` | components/CalculatorSection.tsx:59-61 | the segment count does not decrease as the value grows |
| `QuantumControl.BarCount` | components/CalculatorSection.tsx:112-113 | a bar lighting segments i < active shows active clamped into [0, total] lit segments |
| `QuantumControl.Bar` | components/CalculatorSection.tsx:112-113 | the bar has one entry per segment, and entry i is lit exactly when i < active |
| `QuantumControl.RenderedSegments` | components/CalculatorSection.tsx:112-113 | for an in-range value the twelve-segment bar lights exactly activeSegments segments |
| `QuantumControl.Increment` | components/CalculatorSection.tsx:63-65 | + yields value + step when that is at most max, else leaves the value; never goes above max from at or below max |
| `QuantumControl.Decrement` | components/CalculatorSection.tsx:67-69 | - yields value - step when that is at least min, else leaves the value; never goes below min from at or above min |
| `QuantumControl.ButtonsKeepRange` | components/CalculatorSection.tsx:63-69 | with a non-negative step neither button takes an in-range value out of [min, max] |
| `QuantumControl.DecrementUndoesIncrement` | components/CalculatorSection.tsx:63-69 | an increment that changed the value is undone by a decrement |
| `QuantumControl.IncrementUndoesDecrement` | components/CalculatorSection.tsx:63-69 | a decrement that changed the value is undone by an increment |
| `QuantumControl.IncrementsClosedForm` | components/CalculatorSection.tsx:63-65 | k presses of + add step times min(k, (max - value) div step) |
| `QuantumControl.DecrementsClosedForm` | components/CalculatorSection.tsx:67-69 | k presses of - subtract step times min(k, (value - min) div step) |
| `QuantumControl.IncrementsSettle` | components/CalculatorSection.tsx:63-65 | repeated + never passes max and settles at max - (max - value) mod step |
| `QuantumControl.FrequencyScenario` | components/CalculatorSection.tsx:218-225 | the frequency control at 10 goes to 13 after three presses of +, lighting 3 segments |
| `CostStats.MonthlyCost` | components/CalculatorSection.tsx:152-157 | the monthly cost is frequency * duration * 4.33 * rate / 60, non-negative for non-negative inputs |
| `CostStats.MonthlyCostMonotone` | components/CalculatorSection.tsx:152-157 | for non-negative inputs the cost does not decrease when any input grows |
| `CostStats.MonthlyCostWithinControlRanges` | components/CalculatorSection.tsx:218-251 | every setting of the three controls costs between the lowest and the highest setting's cost (64950) |
| `CostStats.InitialSettingsCost` | components/CalculatorSection.tsx:140-157 | the initial settings 10, 30 and 25 give 541.25 a month |
| `Animation.Unset` | components/CalculatorSection.tsx:20 | `!startTimestamp`: a missing start time and a start time of 0 both count as unset, any other start time does not |
| `Animation.StartTime` | components/CalculatorSection.tsx:20 | a frame uses its own timestamp as start time when the start time is unset (missing or 0), and the recorded one otherwise |
| `Animation.Progress` | components/CalculatorSection.tsx:21 | progress is at most 1, non-negative for non-negative elapsed time, 1 exactly when the duration has elapsed, else elapsed / duration |
| `Animation.Eased` | components/CalculatorSection.tsx:22 | the eased fraction is in [0, 1] for progress in [0, 1], 0 at 0 and exactly 1 at 1 |
| `Animation.Interpolate` | components/CalculatorSection.tsx:23 | a fraction in [0, 1] gives a value between start and end; 0 gives the start, 1 the end |
| `Animation.FrameValue` | components/CalculatorSection.tsx:19-24 | a frame's value lies between start and end value, is the start value at elapsed time 0 and the end value once the duration has elapsed |
| `Animation.WantsNextFrame` | components/CalculatorSection.tsx:26-28 | another frame is requested exactly while the elapsed time is below the duration |
| `Animation.HalfwayFrame` | components/CalculatorSection.tsx:21-23 | from 0 to 100 over 800 ms, sampled 400 ms in with eased 0.96875, the frame shows 96.875 |
| `Animation.AnimatedValue.constructor` | components/CalculatorSection.tsx:11-17 | mount: the display, start and end values are the first value and no start time is set |
| `Animation.AnimatedValue.Retarget` | components/CalculatorSection.tsx:14-32 | a new target starts a run from the value currently displayed with no start time; the same target starts nothing |
| `Animation.AnimatedValue.Step` | components/CalculatorSection.tsx:19-29 | a frame records an unset (or zero) start time, publishes FrameValue, keeps the display between start and end, shows the start value on the first frame, asks for another frame iff progress < 1, and shows the end value when it stops |
| `HeroTypewriter.TickOnce` | components/HeroSection.tsx:15-23 | while the interval is set and the counter is at most the length, a firing publishes the prefix of that length and counts up with the interval kept; past the length it clears the interval and keeps counter and text; a cleared interval does not fire |
| `HeroTypewriter.AfterTicks` | components/HeroSection.tsx:13-23 | after k firings the counter is at most k and at most length + 1, and the text shown is a prefix of the full text |
| `HeroTypewriter.Published` | components/HeroSection.tsx:17-18 | the text shown after k ticks is a prefix of the full text of length min(k - 1, length) |
| `HeroTypewriter.AfterTicksClosedForm` | components/HeroSection.tsx:13-23 | after k ticks the counter is min(k, length + 1), the text is Published(k) and the interval is set iff k <= length + 1 |
| `HeroTypewriter.DisplayedIsPrefix` | components/HeroSection.tsx:17-19 | the text shown is always a prefix of the full text and the counter never exceeds length + 1 |
| `HeroTypewriter.DisplayedGrows` | components/HeroSection.tsx:17-19 | the text shown at an earlier tick is a prefix of the text at a later one |
| `HeroTypewriter.Completion` | components/HeroSection.tsx:17-22 | at tick length + 1 the whole text is shown; from tick length + 2 on the interval is cleared and nothing changes |
| `HeroTypewriter.TwoLetterRun` | components/HeroSection.tsx:13-23 | typing "AB" shows "", "A", "AB" and the fourth tick clears the interval |
| `HeroTypewriter.HeroCompletes` | components/HeroSection.tsx:8-10 | the 42-character headline is complete at tick 43 and the interval clears at tick 44 |
| `HeroTypewriter.SliceTo` | components/HeroSection.tsx:73 | `slice(0, n)`: a prefix of the text of length min(n, length) |
| `HeroTypewriter.SliceFrom` | components/HeroSection.tsx:76 | `slice(n)`: what follows `slice(0, n)` in the text, empty when n is at least the length |
| `HeroTypewriter.Spans` | components/HeroSection.tsx:73-76 | the two spans concatenate to the text shown; the first is its prefix of length min(boundary, length); the second is empty until the text passes the boundary |
| `HeroTypewriter.SpansFollowParts` | components/HeroSection.tsx:73-76 | for text that is a prefix of part1 + part2, the first span is a prefix of part1 and the second a prefix of part2 |
| `HeroTypewriter.HeroSpans` | components/HeroSection.tsx:8-10 | at every tick the headline's plain span is a prefix of part1 and its highlighted span a prefix of part2 |
| `HeroTypewriter.Typewriter.constructor` | components/HeroSection.tsx:13-15 | mount: counter 0, empty text, interval set |
| `HeroTypewriter.Typewriter.Tick` | components/HeroSection.tsx:15-23 | while set, the interval fires as TickOnce; after the self-clear or the cleanup nothing changes; the text stays a prefix of the full text and only grows |
| `HeroTypewriter.Typewriter.Cancel` | components/HeroSection.tsx:25 | the cleanup clears the interval and keeps counter and text; clearing twice is harmless |

## Left out

- The JSX rendering, the Tailwind classes and the lucide-react icons are pure
  presentation.
- The exact easing `1 - Math.pow(2, -10 * progress)` is not modelled. It is
  floating point, so the model keeps only its start point and its range.
- Floating-point rounding is not modelled. The segment ratio, the monthly cost
  and the interpolation are exact reals, and integer props are unbounded.
- QuantumControl.ActiveSegments: requires min != max. With min == max the code
  divides by zero and renders a NaN or infinite count. All three call sites pass
  min < max.
- Animation.AnimatedValue.constructor: requires a positive duration. The code
  divides by the duration, and its only caller uses the default of 800.
- Animation.AnimatedValue.Step: a NaN timestamp is not modelled. The code treats
  NaN as unset, like 0.
- Overlapping frame chains from earlier effect runs are never cancelled by the
  code. They are scheduler behaviour, so the model covers one run at a time.
- The hidden range input is not modelled. The browser clamps and snaps its value
  (foreign code), and its `onChange` just forwards `Number(e.target.value)`.
- The scroll listener and the parallax offsets are DOM event input plus a
  multiplication.
- `Intl.NumberFormat` currency formatting is a library call.
- The real timing of `setInterval` (50 ms) and `requestAnimationFrame` is not
  modelled. Ticks and frames are explicit calls.
- HeroTypewriter.TickOnce: the text is modelled as a sequence of Unicode code
  points, while `length` and `slice` count UTF-16 code units. The two agree for
  text without characters outside the Basic Multilingual Plane, such as the
  headline (42 either way; its `Á` is the single code point U+00C1). For text
  with such a character (an emoji, say), the code takes one more tick per
  character and briefly shows half of a surrogate pair. TickOnce,
  Typewriter.Tick and Completion do not describe that.
- `components/Navbar.tsx` (scroll locking, scrolling, a menu toggle) and
  `components/ProcessSection.tsx` (static data and markup) are not part of this
  model.
