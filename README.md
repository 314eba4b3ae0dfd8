# snewpdag NthTimeDiff and ValidateKey, modelled in Dafny

snewpdag propagates supernova-neutrino alerts through a directed acyclic graph
of nodes. Every event carries a lifecycle action (`alert`, `revoke`, `reset`,
`report`) and a history, which is the provenance chain whose last entry names
the sending node. This project models two of those nodes.

- **NthTimeDiff** joins two upstream sources. For each source it keeps a slot
  with three parts: a validity flag, the nth earliest time of the source's last
  alert, and that alert's history. After every event it does one of three
  things. If both slots are valid, it sends the difference of the two times
  (slot 0 minus slot 1). If a revoke has just invalidated a valid slot, it
  sends one revocation. Otherwise it sends nothing. Events from unknown or
  excess sources are dropped and change nothing, and so are actions it does
  not handle. The nth earliest time comes from `get_nth`. That function scans
  the times with a working list of `nth` candidates and tracks their running
  maximum.
  - `order_statistic.dfy` (module `OrderStatistic`) defines the k-th smallest
    element. It has two definitions: one by rank (fewer than k elements below
    it, at least k at or below it) and one as position k-1 of the ascending
    sort. It proves the two agree, that the k-th smallest is unique, that it
    does not depend on the order of the list, and that rank 1 gives the
    minimum and rank |s| the maximum.
  - `nth_time_diff.dfy` (module `NthTimeDiffNode`) holds three things. The
    first is `GetNth`, an imperative `for` loop over the working list, proved
    to return `sorted(values)[nth-1]`. The second is `Step`, the function that
    specifies one `update` call. The third is the class `NthTimeDiff`. Its
    fields `valid`, `t` and `h` are updated in place by `Update`, which is
    proved to follow `Step`. The module also has the lemmas about `Step`.
- **ValidateKey** is a gate. For each action whose switch is on, it lets the
  event through when the payload has the required field. An action whose
  switch is off is always consumed. `validate_key.dfy` (module
  `ValidateKeyGate`) models it as pure functions over a configuration record
  and a payload map.

How the model handles the code's external pieces:
- The DAG's `watch_index` is a function `Provenance -> int` that the node is
  given at construction. A negative value means "unknown source".
- `notify` appends to the ghost sequence `notified`.
- Times are `real`.

Three behaviours of the code worth knowing:
- A revocation is sent whenever a revoke invalidates a valid slot, whatever
  the other slot holds (snewpdag/plugins/NthTimeDiff.py:45,57).
- One `nth` serves both sources, so the example lemmas use nth = 2 throughout.
- `reset` and `report` reaching `NthTimeDiff.update` take the
  unrecognised-action path and are dropped
  (snewpdag/plugins/NthTimeDiff.py:47-49).

## Model

| member | source | states |
|---|---|---|
| `OrderStatistic.Max` | snewpdag/plugins/NthTimeDiff.py:68 | `max(lowest)` is an element of the list and no element exceeds it |
| `OrderStatistic.RemoveFirst` | snewpdag/plugins/NthTimeDiff.py:72 | `lowest.remove(current)` removes exactly one occurrence: the multiset loses one copy and the length drops by one |
| `OrderStatistic.NthSmallest` | snewpdag/plugins/NthTimeDiff.py:62-66 | position nth-1 of the ascending sort has the nth-smallest rank: it occurs in the list, fewer than nth elements lie below it and at least nth lie at or below it |
| `OrderStatistic.SortedCopy` | snewpdag/plugins/NthTimeDiff.py:62-66 | the reference ascending sort is sorted, is a permutation of its input and has the same length |
| `OrderStatistic.NthSmallestUnique` | snewpdag/plugins/NthTimeDiff.py:62-66 | only one value has the nth-smallest rank, duplicates counted |
| `OrderStatistic.NthSmallestIsSortedAt` | snewpdag/plugins/NthTimeDiff.py:62-66 | any value with the nth-smallest rank equals `sorted(values)[nth-1]`, and the rank forces 1 <= nth <= len(values) |
| `OrderStatistic.NthSmallestPermutation` | snewpdag/plugins/NthTimeDiff.py:62-75 | the nth smallest value is the same for every permutation of the list |
| `OrderStatistic.FirstIsMinimum` | snewpdag/plugins/NthTimeDiff.py:5 | nth = 1 selects the minimum, the first event in time |
| `OrderStatistic.LastIsMaximum` | snewpdag/plugins/NthTimeDiff.py:62-75 | nth = len(values) selects the maximum |
| `OrderStatistic.CountPermutation` | snewpdag/plugins/NthTimeDiff.py:67-75 | the rank counts depend only on the multiset of the times, which is what the working list preserves |
| `NthTimeDiffNode.GetNth` | snewpdag/plugins/NthTimeDiff.py:62-75 | for 1 <= nth <= len(values), the scan returns a value of nth-smallest rank, equal to `sorted(values)[nth-1]` |
| `NthTimeDiffNode.StartWorkingSet` | snewpdag/plugins/NthTimeDiff.py:67-68 | the loop invariant holds after the first nth values are copied and their maximum taken |
| `NthTimeDiffNode.EvictMaximum` | snewpdag/plugins/NthTimeDiff.py:70-74 | evicting one copy of the maximum for a smaller v keeps the size nth and keeps the invariant: working list plus rest equal the scanned prefix as a multiset, `current` is the new maximum, and nothing in the rest lies below it |
| `NthTimeDiffNode.KeepMaximum` | snewpdag/plugins/NthTimeDiff.py:69-71 | a value not below `current` leaves the working list unchanged and keeps the invariant |
| `NthTimeDiffNode.WorkingSetRank` | snewpdag/plugins/NthTimeDiff.py:75 | at the end of the scan the invariant makes `current` the len(lowest)-th smallest value |
| `NthTimeDiffNode.NthTimeDiff.constructor` | snewpdag/plugins/NthTimeDiff.py:12-21 | nth below 1 becomes 1 and any other nth is kept; both slots start invalid with times 0 and empty histories; nothing has been sent |
| `NthTimeDiffNode.NthTimeDiff.Update` | snewpdag/plugins/NthTimeDiff.py:23-60 | the new slots are those `Step` gives; an event `Step` drops leaves the slots and the notify log unchanged; otherwise the log grows by exactly the one emission `Step` decides, or by nothing |
| `NthTimeDiffNode.ParseAction` | snewpdag/plugins/NthTimeDiff.py:24-49 | the tag is an alert iff it is "alert" and a revoke iff it is "revoke"; a tag outside the four lifecycle names is kept by name as unrecognised |
| `NthTimeDiffNode.Decide` | snewpdag/plugins/NthTimeDiff.py:51-60 | the slots pass through unchanged; something is sent iff both slots are valid or this event newly revoked a slot; whatever is sent carries the histories of slot 0 and slot 1 |
| `NthTimeDiffNode.Step` | snewpdag/plugins/NthTimeDiff.py:23-60 | the event is dropped iff its index is negative, 2 or more, or its action is neither alert nor revoke; an accepted event leaves two well-formed slots and the other source's slot untouched |
| `NthTimeDiffNode.BadIndexDropped` | snewpdag/plugins/NthTimeDiff.py:28-34 | a source index below 0 is dropped as unrecognised and one of 2 or more as excess |
| `NthTimeDiffNode.OtherActionDropped` | snewpdag/plugins/NthTimeDiff.py:47-49 | with a good index, an action other than alert or revoke is dropped |
| `NthTimeDiffNode.AlertFillsSlot` | snewpdag/plugins/NthTimeDiff.py:40-43 | an alert sets its slot valid, stores `sorted(times)[nth-1]` and the history, and leaves the other slot untouched |
| `NthTimeDiffNode.RevokeClearsFlag` | snewpdag/plugins/NthTimeDiff.py:44-46 | a revoke clears only its own validity flag; times, histories and the other flag are unchanged |
| `NthTimeDiffNode.EmissionCases` | snewpdag/plugins/NthTimeDiff.py:51-60 | for an accepted event, exactly one case holds. Both slots valid iff an alert with histories (h0, h1) and dt = t0 - t1 is sent. A revoke of a slot that was valid iff a revoke with (h0, h1) is sent. Otherwise nothing is sent |
| `NthTimeDiffNode.StaleRevokeSilent` | snewpdag/plugins/NthTimeDiff.py:39-60 | revoking an already invalid slot changes nothing and sends nothing |
| `NthTimeDiffNode.RepeatedRevokeSilent` | snewpdag/plugins/NthTimeDiff.py:36-60 | after a revoke, any second revoke from the same source, whatever history and times it carries, sends nothing, so at most one revocation goes downstream |
| `NthTimeDiffNode.ExampleSelections` | snewpdag/plugins/NthTimeDiff.py:62-75 | the 2nd smallest of 9, 5, 7 is 7 and that of 1, 2, 3 is 2 |
| `NthTimeDiffNode.ExampleAlerts` | snewpdag/plugins/NthTimeDiff.py:40-56 | an alert from A on a fresh node sends nothing; a following alert from B sends an alert with both histories and dt = A's nth time minus B's |
| `NthTimeDiffNode.ExampleRevokes` | snewpdag/plugins/NthTimeDiff.py:44-60 | from two valid slots, a revoke from A sends one revocation with both last histories; a second revoke from A sends nothing |
| `ValidateKeyGate.Configure` | snewpdag/plugins/ValidateKey.py:16-22 | each `on_*` switch is on exactly when its option is given and its value is truthy; the four options are removed from the keyword arguments passed on, and the rest, of any value type, pass on unchanged |
| `ValidateKeyGate.CheckKey` | snewpdag/plugins/ValidateKey.py:24-29 | true iff the required field is a key of the payload |
| `ValidateKeyGate.Alert` | snewpdag/plugins/ValidateKey.py:31-35 | true iff `on_alert` is set and the field is present; false for every payload when `on_alert` is off |
| `ValidateKeyGate.Revoke` | snewpdag/plugins/ValidateKey.py:37-41 | true iff `on_revoke` is set and the field is present |
| `ValidateKeyGate.Reset` | snewpdag/plugins/ValidateKey.py:43-47 | true iff `on_reset` is set and the field is present |
| `ValidateKeyGate.Report` | snewpdag/plugins/ValidateKey.py:49-53 | true iff `on_report` is set and the field is present |
| `ValidateKeyGate.OwnSwitchOnly` | snewpdag/plugins/ValidateKey.py:31-53 | each handler depends on its own switch only: gates that agree on the field and on that switch answer alike, whatever their other switches |
| `ValidateKeyGate.KeysDecide` | snewpdag/plugins/ValidateKey.py:24-53 | all answers depend on the payload only through its key set, never on its values |
| `ValidateKeyGate.EnergyGateExample` | snewpdag/plugins/ValidateKey.py:31-41 | a gate switched on for alerts on "energy" consumes an alert without that field, and consumes every revocation |

## Left out

- Logging. The `logging.error` diagnostics (unknown source, excess source, unknown action, nth clamp, missing key) are not modelled. The drop reason is visible as `Dropped(error)` in `Step`.
- The node base class (`snewpdag.dag.Node`) is not part of this model. This covers `watch_index`, which becomes the injected function `watchIndex`; `notify`, which becomes the ghost log `notified`; and the node name and keyword-argument handling. Dispatch by action name is left out too: the four ValidateKey handlers are separate functions.
- Python exceptions are preconditions, not modelled paths. `Update` requires a non-empty history, because `data['history'][-1]` raises on an empty one. It also requires at least nth times for an alert routed to a slot, because `get_nth` raises IndexError otherwise. A missing `times` key is not modelled: `Message` always carries a (possibly empty) list.
- The partial update before that IndexError is not modelled. snewpdag/plugins/NthTimeDiff.py:41 sets the slot valid before `get_nth` can raise at line 42. A caller that caught the exception would leave the slot valid with a stale time and history, and a later event could send a combined alert built on them. The precondition of `Update` excludes this path.
- The message action is an `Action` value. `ParseAction` states how a tag string maps onto it; `Update` takes the parsed value.
- `NthTimeDiffNode.GetNth`: `get_nth` is a method that reads only `self.nth`. It is modelled as a module-level method that takes `nth` as a parameter.
- Floating point. Times are exact reals, so rounding in `t[0] - t[1]` is not captured.
- Python truthiness is not defined here. `Configure` takes it as a function `truthy` on the option values, and a missing option counts as off, as the `None` default does.
- Concurrency. Events reach a node one at a time, so `Update` runs to completion with no interleaving.
