# Welcome dashboard: overlay session and message endpoint

A Dafny model of the two pieces of logic in the school's welcome-kiosk page.

- **The overlay session** of `DashboardWithOverlayComponent` (components/dashboard-with-overlay.tsx). Three buttons open a full-screen overlay. Raumplan and Info show an external page in an iframe; Kontakt shows a contact card. The close button and the dimmed backdrop hide the overlay. A click on the overlay's body is stopped before it reaches the backdrop. When the overlay becomes visible, one effect starts two one-shot timers. Auto-dismiss fires after 20000 ms. Countdown-start fires after 15000 ms and sets the countdown badge to 5. A second effect then lowers the badge by one every 1000 ms while it is positive.
- **The message endpoint** `handler` (pages/api/message.ts). GET returns the stored welcome message, or `''` when there is none. POST upserts it as record 1. Any other method gets 405. A database error gets 500.

## Structure

- `wrappers.dfy`, module `Wrappers`: `Option`, which stands for TypeScript's `T | null`.
- `overlay.dfy`, module `Overlay`: the session as a transition system on values.
  - A `State` holds the component's React state, a millisecond clock and the deadlines of the three timers the effects keep pending. For the tick it also holds the countdown value its callback captured.
  - `WithShowOverlay` and `WithCountdown` model a `setState` together with the effect keyed on that state. The effect re-runs only when the value actually changes. Its cleanup cancels the timers it started.
  - `Pressed`, `ClickedOn`, `Fired` and `AdvancedTo` are the events. `Step` and `Run` apply events one at a time.
  - `Inv` is the session invariant.
- `overlay_invariant.dfy`, module `OverlayInvariant`: every event preserves `Inv`.
- `overlay_properties.dfy`, module `OverlayProperties`: what the buttons, the click regions and the timers do, and the timeline of an opening that is left alone.
- `dashboard.dfy`, module `Dashboard`: class `DashboardWithOverlay`.
  - Its fields are the component's state and its pending timers.
  - Each handler and each timer callback is a method that assigns fields, as the component does.
  - The handler and callback methods `Click`, `ClickOverlay`, `FireNext` and `Advance` are proved to perform the transition of module `Overlay` and to keep `Inv`.
  - `SetShowOverlay` and `SetCountdown` are the `setState`-plus-effect steps those methods use. Each performs `WithShowOverlay` or `WithCountdown`. They do not promise `Inv` on their own: `SetCountdown(Some(7))`, for one, leaves the range the invariant demands.
  - `Advance` is the event loop: it fires the due timers one at a time in a `while` loop.
- `message.dfy`, module `MessageApi`.
  - The message table is a sequence of rows in table order.
  - `Respond` gives the response and the table the handler leaves behind.
  - Class `MessageEndpoint` owns the table, and its `Handle` method updates it. Its `Valid` says that ids stay unique, which is the table's primary key.
  - Status codes follow RFC 9110: 200 is section 15.3.1, 405 is section 15.5.6 and 500 is section 15.6.1.

### Timing

The model uses exact integer milliseconds, with no render or event-loop latency.

At the end of an undisturbed countdown, the last tick and auto-dismiss are due at the same instant. They fire in the order they were scheduled, so auto-dismiss goes first. The invariant shows that no other two timers can ever be due together.

A countdown left over from an earlier opening always runs out before the next opening's countdown-start fires. This holds because a pending tick is at most 1 s away and at most 5 ticks remain, while countdown-start is 15 s away.

### Behaviour worth noting

- `COUNTDOWN_START` is 5. The inline comment beside it speaks of 3 seconds.
- A close does not clear the overlay's content, kind or countdown. `CloseChangesOnlyVisibility` proves this.
- Pressing a button while the overlay is open does not restart the timers. The timers depend only on `showOverlay`. `PressedSchedulesOnlyOnOpening` proves this.
- The countdown reaching 0 does not itself close anything. Auto-dismiss does that, at the same instant.
- Kontakt keeps the previous iframe URL in `overlayContent`.
- Nothing resets the countdown to null. So an overlay reopened after an auto-dismiss shows a `0` badge for its first 15 s. `ReopenShowsZeroBadge` proves this.

## Model

| member | source | states |
|---|---|---|
| `Overlay.Reached` | components/dashboard-with-overlay.tsx:149-162 | the handlers that run for a click are a prefix of its bubbling path. Every one of them except the last lets the click propagate. When the path is cut short, the last handler run is the one that called stopPropagation |
| `Overlay.NextDue` | components/dashboard-with-overlay.tsx:29-50 | no timer is due exactly when none of the three is pending. Otherwise the chosen timer is pending at the chosen deadline, and no pending timer has an earlier deadline |
| `Overlay.WithShowOverlay` | components/dashboard-with-overlay.tsx:25-43 | no contract of its own. Its properties are proved by `WithShowOverlayPreservesInv`, `PressedSchedulesOnlyOnOpening` and `CloseChangesOnlyVisibility` |
| `Overlay.WithCountdown` | components/dashboard-with-overlay.tsx:45-55 | no contract of its own. Its properties are proved by `TickDecrementsByOne`, `CountdownStartsOnTime`, `CountdownSecond` and `LastCountdownSecond` |
| `Overlay.Pressed` | components/dashboard-with-overlay.tsx:120-134 | no contract of its own. Its properties are proved by `PressedEffects`, `PressedSchedulesOnlyOnOpening` and `PressedPreservesInv` |
| `Overlay.ClickedOn` | components/dashboard-with-overlay.tsx:154-186 | no contract of its own. Its properties are proved by `BackdropHandlerRunsOnlyForBackdrop`, `CloseChangesOnlyVisibility`, `BodyClickChangesNothing` and `ClickedOnPreservesInv` |
| `Overlay.Fired` | components/dashboard-with-overlay.tsx:29-50 | no contract of its own. Its properties are proved by `FiredProgress`, `FiredPreservesInv` and `TickDecrementsByOne` |
| `Overlay.AdvancedTo` | components/dashboard-with-overlay.tsx:25-55 | no contract of its own. Its properties are proved by `AdvanceSplit`, `AdvancedToPreservesInv`, `ShownUntilDeadline`, `CountdownStartsOnTime` and `CountdownRunsDown` |
| `Overlay.Inv` | components/dashboard-with-overlay.tsx:12-55 | the session invariant. Every event keeps it (`StepPreservesInv`) and every reachable state satisfies it (`ReachableStatesSatisfyInv`) |
| `OverlayInvariant.WithShowOverlayPreservesInv` | components/dashboard-with-overlay.tsx:25-43 | setting showOverlay keeps the session invariant, so any countdown left over ends before the new one starts. Opening a hidden overlay schedules auto-dismiss at now+20000 and countdown-start at now+15000. Closing cancels both timers |
| `OverlayInvariant.PressedPreservesInv` | components/dashboard-with-overlay.tsx:120-134 | a button press keeps the session invariant |
| `OverlayInvariant.ClickedOnPreservesInv` | components/dashboard-with-overlay.tsx:154-186 | a click on the close button, the body or the backdrop keeps the session invariant |
| `OverlayInvariant.FiredPreservesInv` | components/dashboard-with-overlay.tsx:29-50 | firing the next timer keeps the invariant, and the clock never runs backwards |
| `OverlayInvariant.AdvancedToPreservesInv` | components/dashboard-with-overlay.tsx:25-55 | letting time pass up to t keeps the invariant and leaves the clock at t |
| `OverlayInvariant.StepPreservesInv` | components/dashboard-with-overlay.tsx:25-55 | every event keeps the invariant and does not move the clock backwards |
| `OverlayInvariant.RunPreservesInv` | components/dashboard-with-overlay.tsx:12-55 | after any sequence of events the invariant holds, and the countdown, when set, lies in 0..COUNTDOWN_START |
| `OverlayInvariant.ReachableStatesSatisfyInv` | components/dashboard-with-overlay.tsx:7-15 | every state reachable from mounting satisfies the invariant |
| `OverlayProperties.PressedEffects` | components/dashboard-with-overlay.tsx:120-133 | every press marks its button active. Raumplan and Info show their URL in the iframe. Kontakt shows the contact card and keeps the previous URL. Any other name changes only the active button. No press touches the countdown or its tick |
| `OverlayProperties.PressedSchedulesOnlyOnOpening` | components/dashboard-with-overlay.tsx:25-43 | opening a hidden overlay schedules auto-dismiss at now+20000 and countdown-start at now+15000. A press while it is shown leaves both timers as they were |
| `OverlayProperties.BackdropHandlerRunsOnlyForBackdrop` | components/dashboard-with-overlay.tsx:149-162 | the backdrop's handler runs exactly for a click on the backdrop. The body's handler runs exactly for clicks inside the body |
| `OverlayProperties.CloseChangesOnlyVisibility` | components/dashboard-with-overlay.tsx:154-186 | the close button and the backdrop hide the overlay and cancel its two timers. Content, kind, active button, countdown and tick are unchanged |
| `OverlayProperties.BodyClickChangesNothing` | components/dashboard-with-overlay.tsx:161 | a click on the overlay's body leaves the whole state unchanged |
| `OverlayProperties.TickDecrementsByOne` | components/dashboard-with-overlay.tsx:45-50 | the tick fires only when the countdown is set and positive. It lowers the countdown by exactly one and does not touch the overlay |
| `OverlayProperties.CountdownStaysSetWhileWaiting` | components/dashboard-with-overlay.tsx:34-50 | once set, the countdown stays set however long time passes |
| `OverlayProperties.CountdownNeverCleared` | components/dashboard-with-overlay.tsx:12-55 | once set, the countdown is never null again, whatever events follow |
| `OverlayProperties.AdvanceSplit` | components/dashboard-with-overlay.tsx:25-55 | waiting until t1 and then until t2 is the same as waiting until t2 |
| `OverlayProperties.ShownUntilDeadline` | components/dashboard-with-overlay.tsx:29-36 | before its deadline, auto-dismiss stays pending and the overlay stays shown |
| `OverlayProperties.CountdownStartsOnTime` | components/dashboard-with-overlay.tsx:34-50 | countdown-start fires at its deadline, after any leftover ticks, and sets the countdown to 5 with a tick due 1000 ms later |
| `OverlayProperties.CountdownSecond` | components/dashboard-with-overlay.tsx:45-55 | while the shown overlay's countdown shows m > 1, its tick lowers it to m-1 and schedules the next tick one second later |
| `OverlayProperties.LastCountdownSecond` | components/dashboard-with-overlay.tsx:29-55 | when the countdown shows 1, auto-dismiss hides the overlay first, because it is due at the same instant and was scheduled first. Then the tick sets the countdown to 0, and no timer is left pending |
| `OverlayProperties.CountdownRunsDown` | components/dashboard-with-overlay.tsx:29-55 | k seconds after the countdown was set to n, it shows n-k while the overlay is shown. After n seconds it is 0, the overlay is hidden and nothing is pending |
| `OverlayProperties.UndisturbedCountdown` | components/dashboard-with-overlay.tsx:14-55 | after an opening left alone, the countdown is 5,4,3,2,1 at 15000..19000 ms. At 20000 ms it is 0 and the overlay is hidden, with content, kind and active button unchanged and no timer pending |
| `OverlayProperties.AutoDismissedOnce` | components/dashboard-with-overlay.tsx:29-43 | after an opening left alone, the overlay is shown exactly until 20000 ms have passed. From then on it is hidden with the countdown at 0 |
| `OverlayProperties.PressThenWait` | components/dashboard-with-overlay.tsx:120-134 | the same timeline, counted from the press that opens a hidden overlay. The countdown is 5,4,3,2,1 at 15000..19000 ms and the overlay is shown. At 20000 ms the countdown is 0, the overlay is hidden and no timer is pending. Throughout, the pressed button stays active and the press's content and kind stay unchanged |
| `OverlayProperties.ReopenShowsZeroBadge` | components/dashboard-with-overlay.tsx:178 | reopening after an auto-dismiss shows the overlay with the badge at 0 and no tick pending |
| `Dashboard.DashboardWithOverlay.constructor` | components/dashboard-with-overlay.tsx:7-12 | the mounted component has the initial state and no timer pending |
| `Dashboard.DashboardWithOverlay.SetShowOverlay` | components/dashboard-with-overlay.tsx:25-43 | setShowOverlay with its effect: a change cancels both one-shot timers and, when the overlay is shown, schedules them afresh. Setting the current value does nothing |
| `Dashboard.DashboardWithOverlay.SetCountdown` | components/dashboard-with-overlay.tsx:45-55 | setCountdown with its effect: a change cancels the tick and, while the value is positive, schedules one 1000 ms ahead |
| `Dashboard.DashboardWithOverlay.Click` | components/dashboard-with-overlay.tsx:120-134 | performs `Pressed` on the fields and keeps the invariant |
| `Dashboard.DashboardWithOverlay.ClickOverlay` | components/dashboard-with-overlay.tsx:154-186 | performs `ClickedOn` on the fields and keeps the invariant |
| `Dashboard.DashboardWithOverlay.FireNext` | components/dashboard-with-overlay.tsx:29-50 | runs the callback of the earliest pending timer, as `Fired` does, and keeps the invariant |
| `Dashboard.DashboardWithOverlay.Advance` | components/dashboard-with-overlay.tsx:25-55 | fires every timer due within ms, in order, and ends at now+ms, as `AdvancedTo` does. Keeps the invariant |
| `MessageApi.Respond` | pages/api/message.ts:6-31 | no contract of its own. Its branches are stated by `GetReadsFirstRow`, `PostUpsertsRecordOne`, `RejectedMethodLeavesStore` and `FailureGives500` |
| `MessageApi.FindFirst` | pages/api/message.ts:9 | no contract of its own: the first row in table order, as stated under "Left out". `GetReadsFirstRow` states what GET makes of it |
| `MessageApi.ContentOrEmpty` | pages/api/message.ts:10 | no contract of its own. `GetReadsFirstRow` and `PostThenGet` state what GET answers |
| `MessageApi.Upsert` | pages/api/message.ts:18-22 | an upsert adds at most one row |
| `MessageApi.UpsertSets` | pages/api/message.ts:18-22 | after an upsert, the row with the given id holds the new content, whether it existed or not. Every other id keeps its content |
| `MessageApi.UpsertKeepsIdsUnique` | pages/api/message.ts:18-22 | an upsert keeps ids unique and adds no id except the upserted one |
| `MessageApi.UpsertIdempotent` | pages/api/message.ts:18-22 | upserting the same content twice gives the same table as upserting it once |
| `MessageApi.GetReadsFirstRow` | pages/api/message.ts:7-10 | a successful GET leaves the table unchanged and answers 200 with the first row's content, or `''` when the table is empty |
| `MessageApi.RejectedMethodLeavesStore` | pages/api/message.ts:28-29 | a method other than GET and POST gets 405 `{error: 'Methode nicht erlaubt'}` and leaves the table unchanged |
| `MessageApi.PostUpsertsRecordOne` | pages/api/message.ts:15-23 | a successful POST answers 200 `{success: true}`. Afterwards record 1 holds the message, every other record keeps its content, and ids stay unique |
| `MessageApi.PostThenGet` | pages/api/message.ts:9-22 | when record 1 is the only or first row, or the table is empty, a GET after a POST returns the posted message. An empty message reads back as `''` |
| `MessageApi.PostIdempotent` | pages/api/message.ts:18-22 | posting the same message twice leaves the same table and response as posting it once |
| `MessageApi.FailureGives500` | pages/api/message.ts:11-26 | a database error in GET or POST gives 500 `{error: 'Internal Server Error'}` and leaves the table unchanged, so a later GET sees the previous message |
| `MessageApi.MessageEndpoint.constructor` | pages/api/message.ts:4 | the endpoint starts on the given table, whose ids are unique, so `Valid` holds |
| `MessageApi.MessageEndpoint.Handle` | pages/api/message.ts:6-31 | the response and the new table are those of `Respond`, and ids stay unique |

## Left out

- Rendering is not modelled: JSX, Tailwind classes and framer-motion animation (components/dashboard-with-overlay.tsx:74-198). They only present the state. The one exception is where the overlay's regions are nested, which decides how a click bubbles.
- `formatDate` and `formatTime` are not modelled. They call the `de-DE` locale formatter of `Date`, whose output is library behaviour.
- The clock ring's `progress` is not modelled. It is floating-point arithmetic for display only.
- The free-running one-second `setInterval` for `currentTime` is not modelled. It touches no overlay state.
- The JavaScript event loop, `setTimeout` and React scheduling are modelled only as explicit deadlines and discrete events. Render and callback latency is taken as zero. React's batching of the updates inside one handler is implicit, because the handler's effects depend only on the final values.
- Unmounting the component is not modelled. On unmount, the effects' cleanups cancel the pending timers.
- The Prisma client, `console.error` and the Next.js request and response objects are not modelled. The database is a sequence of rows, and whether a database call throws is an input. A failing upsert is taken to leave the table unchanged.
- `FindFirst`: Prisma's `findFirst` with no ordering is modelled as returning the first row in table order. The actual order is database behaviour that cannot be seen here, so the GET properties are stated for a table whose first or only row is record 1.
- The request's `message` field is modelled as a string. A missing field or a field of another JSON type is not modelled.
- `Upsert`: its own contract only bounds the table's length. What it stores is stated by `UpsertSets`, `UpsertKeepsIdsUnique` and `UpsertIdempotent`.
- `PostUpsertsRecordOne` requires unique ids. This is the guarantee of the table's primary key.
- The PIN gate and the message-edit flow are not modelled. They are not part of these two files.
