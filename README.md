# Attendance-margin calculator

This project models the margin calculator of an attendance-portal front end.
The calculator takes the hours a student has attended (`att`) and the hours
held so far (`tot`). If the current percentage is at least 76, it reports how
many more hours the student can miss while staying above 76%. Otherwise it
reports how many more hours the student must attend to reach 75%. Both answers
come from an unbounded scan `n = 0, 1, 2, ...` that stops at the first `n`
crossing the threshold.

Everything lives in one module, `AttendanceMargin` (`margin.dfy`):

- `Margin` and `Message` are the result record. `Message` stands for the two
  message templates; each carries the number it prints.
- `CalculateMargin` is the calculator as the source runs it: two `while` loops
  with an early return, proved against `IsMarginOf`. That predicate says which
  branch runs and that the count is the first crossing point (`IsFirstDrop`,
  `IsFirstReach`).
- `ClosedFormMargin` solves the same crossing points directly with ceiling
  divisions. `MarginIsClosedForm` proves that it is the one and only value
  that satisfies `IsMarginOf`.
- The remaining lemmas state what the result means for a caller: bounds,
  minimality, the 76% boundary, the 75–76% band and three concrete inputs.

The model uses exact rational arithmetic. The source compares `float32`
percentages. Here each comparison is cross-multiplied by its positive
denominator: `att/(tot+n)*100 <= 76` becomes `100*att <= 76*(tot+n)`, and
`(att+n)/(tot+n)*100 >= 75` becomes `100*(att+n) >= 75*(tot+n)`.

Where the design description and the code disagree, the model follows the code:

- The description has a third "stable" outcome for 75% up to 76%. The code
  has no such branch. Those inputs go through the must-attend scan, which
  stops at `n = 0` and reports 0 hours with the must-attend message.
- The description gives the result a recomputed percentage. The code's
  `Margin` has only `Hours` and `Message`.
- The description reports a division-by-zero failure for `tot == 0`. The code
  raises none, because Go's float division yields infinity or NaN. The model
  requires `tot > 0` (see below).
- At exactly 76% the description leaves open whether to clamp. The code does
  not clamp and reports `-1` hours, and so does the model.

## Model

| member | source | states |
|---|---|---|
| `AttendanceMargin.CalculateMargin` | main.go:221-242 | For every `tot > 0` both scans terminate. At 76% or more the result is a can-miss message whose count is one less than the first `n >= 0` with `att/(tot+n)` at or below 76%. Below 76% it is a must-attend message whose count is the first `n >= 0` with `(att+n)/(tot+n)` at or above 75%. The message always prints the reported count. |
| `AttendanceMargin.FirstDropIsDropPoint` | main.go:223-231 | In the can-miss branch, `n` is the scan's stopping point if and only if `n` equals the closed-form `ceil((100*att - 76*tot)/76)`. |
| `AttendanceMargin.FirstReachIsReachPoint` | main.go:232-240 | In the must-attend branch, `n` is the scan's stopping point if and only if `n` equals the closed-form `ceil((75*tot - 100*att)/25)`, or 0 when already at 75%. |
| `AttendanceMargin.MarginIsClosedForm` | main.go:221-242 | The calculator's promise fixes its result uniquely: a margin satisfies it if and only if it equals the closed-form margin. The result is therefore deterministic and independent of the scan. |
| `AttendanceMargin.CanMissIsLargestSafeAbsence` | main.go:223-231 | Can-miss result: count `>= -1`. Missing any `m` hours with `0 <= m <= count` keeps the percentage strictly above 76. Missing `count + 1` hours brings it to 76 or below. |
| `AttendanceMargin.MustAttendIsLeastSufficientAttendance` | main.go:232-240 | Must-attend result: count `>= 0`. Attending `count` more hours reaches 75%. Attending any fewer does not. |
| `AttendanceMargin.CanMissNonNegativeIffAbove` | main.go:223-229 | In the can-miss branch the count is non-negative exactly when the current percentage is strictly above 76. |
| `AttendanceMargin.ExactlyCeilingGivesMinusOne` | main.go:223-228 | At exactly 76% (`100*att == 76*tot`) the result is a can-miss message with count `-1`, unclamped. |
| `AttendanceMargin.BandBelowCeilingGivesZero` | main.go:222-237 | From 75% inclusive up to 76% exclusive the result is a must-attend message with count 0. |
| `AttendanceMargin.EightyOfHundredCanMissFive` | main.go:224-231 | For 80 of 100 hours the result is "can miss 5". |
| `AttendanceMargin.SixtyOfHundredMustAttendSixty` | main.go:233-240 | For 60 of 100 hours the result is "must attend 60". |
| `AttendanceMargin.SeventySixOfHundredCanMissMinusOne` | main.go:223-228 | For 76 of 100 hours the result is "can miss -1". |

## Left out

- `float32` rounding (main.go:222, 226, 235): the model decides every comparison on exact rationals. IEEE single-precision rounding of the quotient or of the product by 100 could in principle move a boundary by one hour for some inputs. Integers above 2^24 also lose precision when converted to `float32`.
- `tot <= 0`: Go's float division gives infinity or NaN there instead of failing, and the scans then behave differently. The model requires `tot > 0`. It does not require `att >= 0`, because both scans terminate for any `att` once `tot > 0`.
- Go's 64-bit `int`: the model uses unbounded integers. Overflow of `tot + n` or `att + n` would need totals near 2^63.
- Message text: `fmt.Sprintf` formatting (main.go:228, 237) is represented by the template tag and the number it prints, not by a string.
- The rest of main.go has no calculation logic: installing and driving the browser, capturing the challenge image (main.go:19-102), the HTTP handlers `serveLoginPage`, `serveCaptchaImage`, `reloadCaptcha` and `submitLogin` (main.go:105-213), and the shared global page (main.go:15). These are foreign calls, file and network I/O and concurrency. The handlers fill and click unconditionally and keep no session state, so there is no state machine to model.
- Scraping attendance rows and applying the calculator per row is described in the design but absent from the code. main.go never calls `calculateMargin`.
