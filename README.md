# ScienceAI demo site: view-state model

ScienceAI is a client-rendered demo site for a museum-exhibit monitoring
product. Its pages are mostly markup, animation and charts. The behaviour
that can be stated and proved sits in the pages' React state cells and
their event and timer callbacks. This project models those cells and
callbacks in Dafny:

- **Dashboard** (`dashboard.dfy`). `generateRandomData` builds five category
  records from random draws. A five-second tick does three things:
  - it regenerates the records wholesale;
  - it adds a random 0..9 to the visitor total;
  - it appends that sample to a history cut to the last ten.

  The status cards are folds over the records, and there is one alert line
  per record.
- **Rotation** (`rotation.dfy`). This is the modular next/previous index
  arithmetic used by the how-it-works carousel (six steps) and by the
  landing page's feature timer (four features).
- **Selection** (`selection.dfy`). This is the optional-selection controller
  shared by the exhibits page (select and close), the reports page (select
  only) and the how-it-works defect grid (select only). Sessions of
  pick/clear actions are stated over it.
- **HowItWorks**, **Landing**, **Exhibits**, **Reports**, **Layout**,
  **Contact** and **StaffLogin**. Each page's state cells are a class. Each
  handler is a method whose `ensures` gives the new state. The value-level
  rules (field update, colour class, panel contents) are functions and
  lemmas.

Modelling decisions:

- `Math.random()` is a real parameter `r` with `0 <= r < 1`.
- `Math.floor(r * k)` is `(r * k).Floor`. The field ranges of a generated
  record (working 50..99, defective 0..9, usage 500..1499, maintenance
  30..89, frequency 1..20) are therefore proved, not assumed.
- `new Date().toLocaleTimeString()` is an arbitrary string parameter of
  `Tick`.
- Each timer firing or user event is one method call.
- JavaScript's `%` is used here only on non-negative operands. There it
  agrees with Dafny's `%`.
- The exhibits catalogue has eight entries. The reports catalogue has four.
  The chart has six rows. These are the `Catalogue`, `ReportTypes` and
  `ChartData` constants. An exhibit's status is one of `Operational`,
  `Maintenance` and `Defective` by its type.

Two facts about the code shape the model:

- The reports page and the how-it-works defect grid have no deselect
  action. Only the exhibits page can clear its selection.
- The dashboard uses one interval for both the regeneration of the records
  and the visitor update.

## Model

| member | source | states |
|---|---|---|
| Dashboard.RandomBelow | app/dashboard/page.tsx:27-31 | `Math.floor(r * k)` of a random `r` in [0,1) lies in [0, k) |
| Dashboard.GenerateRecord | app/dashboard/page.tsx:25-32 | a record keeps its category name, and random draws put every field in its documented range |
| Dashboard.GenerateRandomData | app/dashboard/page.tsx:23-33 | exactly 5 records named Physics, Chemistry, Biology, Astronomy, Robotics in that order, every field in range |
| Dashboard.TotalExhibits | app/dashboard/page.tsx:54 | `totalExhibits`, the left fold of working plus defective over the records; it is never negative when no count is |
| Dashboard.WorkingExhibits | app/dashboard/page.tsx:55 | `workingExhibits`, the left fold of working over the records; it is never negative when no working count is |
| Dashboard.DefectiveExhibits | app/dashboard/page.tsx:56 | `defectiveExhibits`, computed as total minus working, equals the sum of the defective counts |
| Dashboard.DefectiveIsSumOfDefective | app/dashboard/page.tsx:54-56 | `totalExhibits - workingExhibits` equals the sum of the defective counts |
| Dashboard.DefectiveZeroIff | app/dashboard/page.tsx:54-56 | with non-negative counts, `defectiveExhibits` is >= 0, and it is 0 exactly when no record has a defective exhibit |
| Dashboard.InRangeFolds | app/dashboard/page.tsx:54-55 | over in-range records, 50 per record <= `workingExhibits` <= `totalExhibits` <= 108 per record |
| Dashboard.GeneratedTotals | app/dashboard/page.tsx:54-84 | for a generated data set `totalExhibits` >= 250, so the percentage's divisor is never 0; 250 <= working <= total; defective is in 0..45 |
| Dashboard.OperationalPercent | app/dashboard/page.tsx:83-85 | the operational percentage (before rounding) lies in [0, 100] when working is between 0 and total |
| Dashboard.AlertFor | app/dashboard/page.tsx:295-301 | one record's alert line: it carries the record's name; it asks for attention, with a warning icon and the record's defective count, exactly when that count is > 0; otherwise it says "All exhibits operational" with a check icon |
| Dashboard.Alerts | app/dashboard/page.tsx:287-304 | one alert line per record, carrying that record's name; the warning icon appears exactly on the lines that ask for attention |
| Dashboard.AlertsMatchDefects | app/dashboard/page.tsx:295-301 | a line says "N exhibits need attention" with N the record's defective count exactly when that count is > 0; all lines say "All exhibits operational" exactly when the defective card is 0 |
| Dashboard.SliceLast | app/dashboard/page.tsx:49 | for n > 0, `slice(-n)` is the suffix of length min(length, n) |
| Dashboard.AppendSample | app/dashboard/page.tsx:49 | the new history has 1..10 samples and ends with the new one; with fewer than 10 before nothing is dropped; with 10 before exactly the oldest is dropped and order is kept |
| Dashboard.SliceLastAppend | app/dashboard/page.tsx:49 | cutting the history to 10 before each append gives the last 10 of all samples ever appended |
| Dashboard.SumVisitorsBounds | app/dashboard/page.tsx:47-48 | increments in 0..9 keep the running total between 0 and 9 per tick |
| Dashboard.DashboardPage.constructor | app/dashboard/page.tsx:38-40 | mounting generates one data set; the total is 0 and the history is empty |
| Dashboard.DashboardPage.Tick | app/dashboard/page.tsx:45-50 | the records are replaced by a fresh generated set; the total grows by `floor(r*10)` in 0..9 and never decreases; the history becomes `AppendSample` of the old one; the invariant (total = sum of all increments, history = last 10 samples) is kept |
| Dashboard.ValidDashboard | app/dashboard/page.tsx:39-49 | in any reachable state the history holds at most 10 samples, which are the latest ones oldest first; the total is the sum of all increments, between 0 and 9 per tick; `totalExhibits` >= 250 |
| Rotation.Next | app/how-it-works/page.tsx:84 | `(i+1) % n` stays in [0, n), moves one forward, and wraps from n-1 to 0 |
| Rotation.Prev | app/how-it-works/page.tsx:85 | `(i-1+n) % n` stays in [0, n), moves one back, and wraps from 0 to n-1 (from step 0 to 5 on the carousel) |
| Rotation.PrevUndoesNext | app/how-it-works/page.tsx:84-85 | prev after next is the identity on [0, n) |
| Rotation.NextUndoesPrev | app/how-it-works/page.tsx:84-85 | next after prev is the identity on [0, n) |
| Rotation.AdvanceIsMod | app/how-it-works/page.tsx:84 | k next-steps from i land on (i + k) mod n |
| Rotation.AdvanceFromZero | app/page.tsx:20 | k ticks from index 0 land on k mod n |
| Rotation.FullTurnIsIdentity | app/page.tsx:19-21 | n steps (4 feature ticks, 6 carousel steps) return every index to itself |
| Selection.Step | app/exhibits/page.tsx:61-108 | one call of a selection setter: `setSelected…(item)` makes the selection non-null and equal to that item, whatever it held; `setSelected…(null)` clears it |
| Selection.Replay | app/exhibits/page.tsx:37-108 | a session of setter calls from a starting selection; a non-null result is the starting selection or an item picked during the session |
| Selection.LastActionDecides | app/exhibits/page.tsx:61-108 | after a session the selection is exactly the last picked item, replacing any earlier one, or nothing if the last action was a close |
| Selection.PicksNeverClear | app/reportspage/page.tsx:33-57 | with picks only, the selection is empty exactly when it started empty and nothing was clicked: once set it never returns to null |
| HowItWorks.Indicators | app/how-it-works/page.tsx:143-147 | one indicator dot per step |
| HowItWorks.ExactlyOneIndicator | app/how-it-works/page.tsx:143-147 | for a step in range exactly one dot is highlighted, the current step's |
| HowItWorks.HowItWorksPage.constructor | app/how-it-works/page.tsx:81-82 | the carousel starts at step 0 with no defect selected |
| HowItWorks.HowItWorksPage.NextStep | app/how-it-works/page.tsx:84 | the step becomes `Next(step, 6)` and stays a valid index; the defect selection is untouched |
| HowItWorks.HowItWorksPage.PrevStep | app/how-it-works/page.tsx:85 | the step becomes `Prev(step, 6)` and stays a valid index; the defect selection is untouched |
| HowItWorks.HowItWorksPage.SelectDefect | app/how-it-works/page.tsx:198 | the selection becomes that card's index, which is < 6; the step is untouched |
| HowItWorks.HowItWorksPage.CurrentStepTitle | app/how-it-works/page.tsx:112-118 | the carousel's lookup `steps[currentStep]` is in bounds and yields one of the step titles |
| HowItWorks.HowItWorksPage.DefectDetail | app/how-it-works/page.tsx:206-215 | the detail panel is shown exactly while a defect is selected, and the lookup `defectTypes[selectedDefect]` is in bounds |
| Landing.HomePage.constructor | app/page.tsx:16 | the showcase starts at feature 0 |
| Landing.HomePage.Tick | app/page.tsx:19-21 | the feature becomes `Next(feature, 4)`; the invariant `activeFeature == ticks mod 4` is kept |
| Landing.HomePage.ActiveFeatureTitle | app/page.tsx:89-95 | the lookup `features[activeFeature]` is in bounds; after a multiple of 4 ticks the first feature is shown again |
| Contact.WithField | app/contact/page.tsx:19-22 | a change sets exactly the named field and leaves the other two as they were |
| Contact.LastWriteWins | app/contact/page.tsx:21 | of two changes to one field, the last one wins |
| Contact.RewriteIsNoop | app/contact/page.tsx:21 | writing a field's current value again changes nothing |
| Contact.DistinctFieldsCommute | app/contact/page.tsx:21 | changes to different fields commute |
| Contact.ContactPage.constructor | app/contact/page.tsx:12-16 | name, email and message all start as "" |
| Contact.ContactPage.HandleChange | app/contact/page.tsx:19-22 | the form becomes `WithField` of the old form |
| Contact.ContactPage.HandleSubmit | app/contact/page.tsx:25-31 | runs only when no field is empty, as the `required` inputs (lines 66, 77, 87) ensure; the values entered are logged, then all three fields are "" whatever they held; the reset form cannot be submitted again until it is filled in |
| StaffLogin.WithField | app/staff-login/page.tsx:21-24 | a change sets exactly the named field and leaves the other as it was |
| StaffLogin.LastWriteWins | app/staff-login/page.tsx:23 | of two changes to one field, the last one wins |
| StaffLogin.StaffLoginPage.constructor | app/staff-login/page.tsx:16-19 | username and password both start as "" |
| StaffLogin.StaffLoginPage.HandleChange | app/staff-login/page.tsx:21-24 | the form becomes `WithField` of the old form |
| StaffLogin.StaffLoginPage.HandleSubmit | app/staff-login/page.tsx:26-31 | runs only when neither field is empty, as the `required` inputs (lines 63, 86) ensure; the attempt is logged as typed and the form is left exactly as it was (no reset) |
| Exhibits.StatusColour | app/exhibits/page.tsx:71-77 | the status line's colour class: green exactly for Operational, yellow exactly for Maintenance, red exactly for the remaining status, Defective |
| Exhibits.StatusColourIdentifiesStatus | app/exhibits/page.tsx:71-77 | Operational is green, Maintenance yellow, and red belongs to exactly the remaining status (Defective); distinct statuses get distinct colours |
| Exhibits.ExhibitsPage.constructor | app/exhibits/page.tsx:37 | nothing is selected initially |
| Exhibits.ExhibitsPage.Select | app/exhibits/page.tsx:61 | the clicked exhibit becomes the selection, replacing any earlier one |
| Exhibits.ExhibitsPage.Close | app/exhibits/page.tsx:108 | close clears the selection to null |
| Exhibits.ExhibitsPage.DetailPanel | app/exhibits/page.tsx:87-102 | the detail panel is shown exactly when the selection is non-null, with that exhibit's name and status |
| Reports.ReportsPage.constructor | app/reportspage/page.tsx:33 | no report is selected initially |
| Reports.ReportsPage.Select | app/reportspage/page.tsx:57 | the clicked report becomes the selection, replacing any earlier one; no other method changes it |
| Reports.ReportsPage.ReportPanel | app/reportspage/page.tsx:73-85 | the panel is shown exactly when the selection is non-null, titled with that report, over the same 6 chart rows whichever report it is |
| Layout.SiteLayout.constructor | app/layout.tsx:13 | the mobile menu starts closed |
| Layout.SiteLayout.ToggleMobileMenu | app/layout.tsx:15-17 | the flag is negated, so two toggles restore it |
| Layout.SiteLayout.MobileNavDisplay | app/layout.tsx:77 | the mobile nav is `block` exactly when the flag is true and `hidden` exactly when it is false |

## Left out

- Rendering, styling and animation are left out: JSX, Tailwind classes,
  framer-motion and `components/SphereAnimation.tsx`. None of it holds
  state logic.
- The chart and icon components are left out: recharts, lucide-react and
  the `@/components/ui/*` widgets. Their source is outside this model. The
  dashboard's chart inputs and its `COLORS` palette go with them.
- `Math.random()` is a real parameter in [0, 1). The IEEE-754 rounding of
  `r * k` is not modelled; the product is exact.
- Time labels are arbitrary strings. The clock is not modelled.
- Timer scheduling and cancellation are left out: `setInterval` and
  `clearInterval` on unmount. One firing is one `Tick` call.
- `console.log`, `alert` and `preventDefault` are left out. The logged form
  values are returned by `HandleSubmit`. The alert pop-ups and the report
  download alert are not modelled.
- Dashboard.OperationalPercent: the percentage is an exact real. The
  floating-point division and the `toFixed(1)` formatting are not modelled.
- Dashboard.AlertsMatchDefects: the alert text is a datatype carrying the
  count. The decimal formatting of the count into the message string is not
  modelled.
- JavaScript numbers are unbounded integers here. Totals stay far below
  2^53 for any realistic session.
- The dashboard's `timeRange` and `defectView` selects only choose which
  chart is drawn, so they are left out.
- Next.js routing and `Link` navigation are left out.
- The browser's form validation is modelled only as far as `required`
  goes: a submit needs every field non-empty. The contact form's
  `type="email"` format check, which also blocks submit for a malformed
  address, is not modelled.
- Form inputs are identified by their `name` attribute, which is one of the
  inputs the form renders. A change event naming any other key, which would
  add a new property to `formData`, is not modelled.
