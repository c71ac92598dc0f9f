# Selection wizards, modelled in Dafny

The repository's pages contain two button wizards. This project models the
core logic of both.

**The stage wizard** (`src/ts/ghost.ts`, module `StageWizard`, file
`stage_wizard.dfy`):
- There are three fixed stages: red (A–E), green (1–5) and blue (あ–お).
- Each stage has a `{min, max}` limit. A button may be activated only while
  the stage's counter is below `max`.
- NEXT advances only when the counter lies in `[min, max)`.
- One ordered list, `selectedButtons`, holds every selected label across the
  stages. Deselecting a button removes its label from that list.
- On entering blue, the trigger becomes POST and gains a listener that
  reports the list.
- The page's module variables are the fields of `Wizard`. The three counters
  are an `array<int>` indexed by stage.
- The invariant is stated on a value snapshot (`Inv`) and proved preserved by
  each transition:
  - the counter equals the number of active buttons;
  - every counter equals the number of that stage's labels in the list;
  - the list has no duplicates;
  - each counter stays within `0..max`;
  - the trigger text matches the stage.

**The cascading filter wizard** (`src/ts/app.ts`, module `FilterWizard`,
file `filter_wizard.dfy`):
- The fruit catalog is a sequence of `(key, fruit)` entries in object key
  order. The fruit's `type` field is called `kind`.
- Type, time and feature options are distinct values in first-seen order.
  The functions `TypeOptions`, `TimeOptions`, `FeatureOptions` and
  `AllFeatures` compute them.
- `createButtons` is `Displayed`.
- The feature redraw is `FeatureButtons`, and the tag list is `Tags`.
- The module variables, the four button containers, the trigger's visibility
  and its bound listeners are the fields of `Page`. The listeners are a set
  of `FeatureNext` / `FinalNext`, since re-adding the same function reference
  is ignored by the DOM.
- The page invariant `Inv` is proved preserved by every click.

`Seqs` (`seqs.dfy`) holds the JavaScript array idioms both pages use:
- `filter`, `map`, `flatMap` and `Array.from(new Set(...))`;
- removal by `filter(x => x !== v)`;
- toggling;
- `join`.

Facts about the code that the model keeps:
- `toggleButton` refuses to activate a button once the stage's counter has
  reached `max` (`canSelectMore`, ghost.ts:56). So `max` caps selection as
  well as bounding NEXT.
- Deselecting removes the label from the reported list (ghost.ts:54).
- `selectTime` filters by time only, not by the chosen type (app.ts:66).
- `selectType` resets nothing downstream (app.ts:56-61).

## Model

| member | source | states |
|---|---|---|
| Seqs.Filter | src/ts/app.ts:58 | `filter` keeps exactly the elements satisfying the predicate and is no longer than its input |
| Seqs.FilterAppend | src/ts/app.ts:58 | `filter` preserves order: filtering a concatenation is the concatenation of the filtered parts |
| Seqs.FilterKeepsAll | src/ts/app.ts:35 | a predicate true of every element keeps the whole sequence |
| Seqs.FilterAgree | src/ts/app.ts:86 | predicates agreeing on the elements filter identically |
| Seqs.FilterNoDup | src/ts/app.ts:35 | filtering keeps a duplicate-free list duplicate-free |
| Seqs.Map | src/ts/app.ts:51 | `map` keeps the length and applies the function at each index |
| Seqs.FlatMap | src/ts/app.ts:59 | `flatMap` holds exactly the values contributed by some element (its order is stated by FlatMapAppend) |
| Seqs.FlatMapAppend | src/ts/app.ts:59 | `flatMap` keeps order: the pieces of earlier elements come before those of later ones |
| Seqs.Dedup | src/ts/app.ts:51 | `Array.from(new Set(s))` is duplicate-free and has exactly the members of `s` |
| Seqs.DedupFirstSeen | src/ts/app.ts:51 | the distinct values come in the order of their first occurrence in `s` |
| Seqs.IndexOf | src/ts/app.ts:51 | the position found holds the value and no earlier position does |
| Seqs.Remove | src/ts/ghost.ts:54 | `filter(btn => btn !== value)` drops the value and keeps every other member |
| Seqs.RemoveKeepsOrder | src/ts/ghost.ts:54 | removal is exactly the order-keeping `filter(y => y !== x)` |
| Seqs.RemoveNoDup | src/ts/ghost.ts:54 | removal keeps a duplicate-free list duplicate-free |
| Seqs.ToggleIn | src/ts/app.ts:119-123 | a present tag is removed, an absent one appended at the end; other members unchanged; duplicates never arise |
| Seqs.ToggleInOrder | src/ts/app.ts:119-123 | toggling a present tag is `filter(t => t !== tag)`, keeping the other tags in order; an absent tag is appended |
| Seqs.ToggleInTwice | src/ts/app.ts:119-123 | toggling twice restores a list not containing the tag, and moves a present tag to the end |
| Seqs.ToggleSet | src/ts/app.ts:73-77 | `Set.has`/`delete`/`add` flips the feature's membership and nothing else |
| Seqs.ToggleSetTwice | src/ts/app.ts:73-77 | toggling a feature twice restores the set |
| Seqs.CountRemove | src/ts/ghost.ts:54 | removing a selected label lowers the count of its stage by one |
| Seqs.CountZero | src/ts/ghost.ts:12-14 | a stage counted zero has none of its labels selected |
| Seqs.Join | src/ts/ghost.ts:96 | `join` of no parts is empty, of one part is that part, and of several is at least as long as the first part, the separator and the last part together; JoinFront places the separator between neighbours |
| Seqs.JoinFront | src/ts/ghost.ts:96 | `join` puts the separator between neighbouring parts, read from the front |
| StageWizard.StageIndex | src/ts/ghost.ts:19-27 | only `red`, `green`, `blue` are known stages, mapped to 0, 1, 2 |
| StageWizard.SelectionValid | src/ts/ghost.ts:17-29 | `isSelectionValid` holds exactly when the stage is red with 1–2, green with 2–3 or blue with 1–4 selections (the `[min, max)` windows) |
| StageWizard.CanSelectMore | src/ts/ghost.ts:106-117 | `canSelectMore` holds exactly when the colour is red below 3, green below 4 or blue below 5 selections |
| StageWizard.Report | src/ts/ghost.ts:96 | the POST report starts with `Selected buttons: `, is just that for no selection and adds the single label for one |
| StageWizard.ReportAfterDeselect | src/ts/ghost.ts:54-96 | with A, B, 1 selected and B deselected, the report reads `Selected buttons: A, 1` |
| StageWizard.FullStageIsStuck | src/ts/ghost.ts:106-117 | a stage filled to `max` can neither take a selection nor advance |
| StageWizard.StageButtonsDisjoint | src/ts/ghost.ts:1-3 | no label belongs to two stages |
| StageWizard.ToggleOffKeepsInv | src/ts/ghost.ts:51-54 | deselecting keeps the invariant: counters match active buttons and selected labels, no duplicates, counters within `0..max` |
| StageWizard.ToggleOnKeepsInv | src/ts/ghost.ts:55-60 | selecting below the cap keeps the invariant, including the counter staying `<= max` |
| StageWizard.AdvanceKeepsInv | src/ts/ghost.ts:85-98 | moving to the next stage with no active buttons keeps the invariant; the trigger reads POST exactly in blue |
| StageWizard.CountsAfterAppend | src/ts/ghost.ts:120-132 | appending a stage-i label raises only stage i's label count in the list; this is what keeps `incBtn`'s counter equal to it |
| StageWizard.CountsAfterRemove | src/ts/ghost.ts:135-147 | removing a stage-i label lowers only stage i's label count in the list; this is what keeps `decBtn`'s counter equal to it |
| StageWizard.Wizard.constructor | src/ts/ghost.ts:4-15 | the page starts in red with zero counters, an empty list and a NEXT trigger |
| StageWizard.Wizard.IsSelectionValid | src/ts/ghost.ts:17-29 | on a valid wizard, NEXT's guard holds exactly when the number of active buttons lies in the stage's `[min, max)` |
| StageWizard.Wizard.CanSelectMoreHere | src/ts/ghost.ts:106-117 | on a valid wizard, a selection is allowed exactly when fewer than `max` buttons are active |
| StageWizard.Wizard.Toggle | src/ts/ghost.ts:48-64 | an active button is deselected (counter −1, label removed); an inactive one is selected (counter +1, label appended) only below the cap, else nothing changes; other counters never change |
| StageWizard.Wizard.Deselect | src/ts/ghost.ts:51-54 | the deselecting branch: button inactive, counter −1, label removed, invariant kept |
| StageWizard.Wizard.Select | src/ts/ghost.ts:55-60 | the selecting branch: button active, counter +1, label appended, invariant kept |
| StageWizard.Wizard.Next | src/ts/ghost.ts:85-99 | NEXT moves red→green or green→blue (POST, one report listener) only when the selection is valid; otherwise, and in blue, nothing changes; the list is kept |
| StageWizard.Wizard.ClickTrigger | src/ts/ghost.ts:85-103 | the report `Selected buttons: ` + join of the current list is produced exactly when the click starts in blue; the listener bound during the click does not fire |
| FilterWizard.Keys | src/ts/app.ts:108 | `Object.keys` lists each entry's key, in order |
| FilterWizard.Displayed | src/ts/app.ts:29-39 | `createButtons` shows exactly the options not listed as incompatible (in order, since it is a `Filter`, whose order FilterAppend states), without duplicates when the options have none |
| FilterWizard.DisplayedAll | src/ts/app.ts:29-39 | with no incompatible list every option is shown |
| FilterWizard.TypeOptions | src/ts/app.ts:50-53 | the type buttons are the distinct types of the catalog |
| FilterWizard.TypeOptionsFirstSeen | src/ts/app.ts:51 | the types come in the order of their first appearance |
| FilterWizard.TypeTimesAppend | src/ts/app.ts:58-59 | the times of the chosen type are listed in catalog order: a later entry's times come after the earlier ones', exactly when it has the type |
| FilterWizard.TimeFeaturesAppend | src/ts/app.ts:66-67 | the features available at the chosen time are listed in catalog order, a later entry's after the earlier ones', exactly when it is available then |
| FilterWizard.CatalogFeaturesAppend | src/ts/app.ts:84 | all features are listed in catalog order, a later entry's after the earlier ones' |
| FilterWizard.TimeOptions | src/ts/app.ts:56-61 | the time buttons are the distinct times of fruits of the chosen type |
| FilterWizard.TimeOptionsFirstSeen | src/ts/app.ts:59 | the time buttons come in the order of each time's first appearance among the chosen type's fruits |
| FilterWizard.FeatureOptions | src/ts/app.ts:64-69 | the feature buttons are the distinct features of fruits available at the chosen time, whatever the type |
| FilterWizard.FeatureOptionsFirstSeen | src/ts/app.ts:67 | the feature buttons come in the order of each feature's first appearance among the fruits available at the chosen time |
| FilterWizard.AllFeatures | src/ts/app.ts:84 | all catalog features, each once |
| FilterWizard.AllFeaturesFirstSeen | src/ts/app.ts:84 | all features come in the order of each one's first appearance in the catalog |
| FilterWizard.FeatureOptionsAmongAll | src/ts/app.ts:66-67 | features offered for a time are catalog features |
| FilterWizard.Incompatible | src/ts/app.ts:85-87 | nothing is incompatible while no feature is selected; otherwise exactly the unselected features |
| FilterWizard.FeatureButtons | src/ts/app.ts:84-88 | the redrawn feature buttons are distinct catalog features: all of them when none is selected, else exactly the selected ones |
| FilterWizard.FeatureButtonsShown | src/ts/app.ts:83-89 | after a feature click all features are shown when none is selected, else exactly the selected ones in first-seen order |
| FilterWizard.Matches | src/ts/app.ts:110-112 | no fruit matches without a selected time or with another type; with no feature selected, type and time decide |
| FilterWizard.Tags | src/ts/app.ts:107-115 | a key is a tag iff its fruit has the selected type, the selected time and every selected feature; no tags without a selected time |
| FilterWizard.TagsDistinct | src/ts/app.ts:108-113 | tags are distinct because keys are |
| FilterWizard.TagsInKeyOrder | src/ts/app.ts:108-113 | every tag is a key, and the tags come in key order |
| FilterWizard.FinalMessage | src/ts/app.ts:140 | the final message starts with `Selected: `, is just that for no tags and adds the single tag for one |
| FilterWizard.RepickGoesLast | src/ts/app.ts:118-141 | picking x, y, then x twice leaves `["y", "x"]` and the message `Selected: y, x` |
| FilterWizard.SelectTypeKeepsInv | src/ts/app.ts:56-61 | choosing a type keeps the page invariant |
| FilterWizard.SelectTimeKeepsInv | src/ts/app.ts:64-69 | choosing a time keeps the page invariant |
| FilterWizard.SelectFeatureKeepsInv | src/ts/app.ts:72-80 | a feature click keeps the page invariant |
| FilterWizard.DisplayTagsKeepsInv | src/ts/app.ts:107-115 | showing tags keeps the invariant: tags are distinct catalog keys |
| FilterWizard.SelectTagKeepsInv | src/ts/app.ts:118-125 | a tag click keeps the invariant: picks are distinct keys, and the final listener is bound while any is picked |
| FilterWizard.ClickedFeatureShown | src/ts/app.ts:72-89 | after a click a feature stays displayed exactly when the click selected it or cleared the last selection; deselecting it while others stay selected hides it |
| FilterWizard.Page.constructor | src/ts/app.ts:50-53 | after loading, the type buttons are the type options and everything else is empty, hidden or unbound |
| FilterWizard.Page.SelectType | src/ts/app.ts:56-61 | records the type and shows its times; nothing else changes |
| FilterWizard.Page.SelectTime | src/ts/app.ts:64-69 | records the time and shows its features; nothing else changes |
| FilterWizard.Page.SelectFeature | src/ts/app.ts:72-80 | flips the feature, redraws the feature buttons, shows the trigger and binds the tag listener iff a feature is selected |
| FilterWizard.Page.UpdateFeatureButtons | src/ts/app.ts:83-89 | the feature container becomes `FeatureButtons` of the selected set |
| FilterWizard.Page.UpdateNextButtonVisibility | src/ts/app.ts:92-99 | the trigger is visible iff a feature is selected, and then the tag listener is bound |
| FilterWizard.Page.DisplayTags | src/ts/app.ts:107-115 | the tag container becomes `Tags` of the current choices |
| FilterWizard.Page.SelectTag | src/ts/app.ts:118-125 | toggles the tag in the picked list; the trigger is visible iff a tag is picked |
| FilterWizard.Page.UpdateFinalNextButtonVisibility | src/ts/app.ts:128-136 | with a tag picked the trigger is shown and the tag listener swapped for the final one, else hidden |
| FilterWizard.Page.ClickNext | src/ts/app.ts:139-141 | the trigger reports `Selected: ` + join of the picks iff the final listener is bound, and redraws the tags iff the tag listener is bound |

## Left out

- DOM construction and styling are not modelled (`innerHTML`, `createElement`, CSS classes, colours, `style.display`). Containers are sequences of labels, an active button is a label in a set, and the trigger's display is a boolean.
- `updateNextButtonStyle` (ghost.ts:66-77) only greys out the trigger, so it is left out. It does not stop the NEXT listener, which checks `isSelectionValid` itself.
- The stage is read from the `stage` field rather than from `querySelector('.red')` / `('.green')` (ghost.ts:87-90). The displayed buttons always carry the current stage's colour, so the two agree.
- `toggleButton`'s `color` argument is the current stage, because only the current stage's buttons are displayed.
- `incBtn`/`decBtn` are written inline in `Select`/`Deselect`. Their branch for an unknown colour cannot be reached, since the stage is always known.
- `value != null` (ghost.ts:59) always holds for a button's text.
- `console.log`, `alert` and the `fetch` of the catalog are not modelled. Alerts are returned as message strings, and the catalog is a constructor parameter.
- `DOMContentLoaded` wiring is not modelled.
- `updateSelectedClass` (app.ts:42-47) only changes CSS classes and is never called.
- The number of POST listeners is a counter. The model proves it is 0 or 1.
- The page's initial markup is not part of this model. The filter page's time, feature and tag containers are taken to start empty, and its trigger hidden.
- Object key order is taken to be the catalog's sequence order. JavaScript lists integer-like keys first, and that reordering is not modelled.
- A click on a hidden trigger is not excluded. `ClickNext` describes the dispatch whenever it happens.
- FlatMap: its own contract states only membership. The order of the pieces is stated separately, by FlatMapAppend.
- ToggleIn: its own contract states membership and the append case. The order of the remaining tags is stated separately, by ToggleInOrder.
- TimeOptions: its own contract states membership and distinctness. First-seen order is stated separately, by TimeOptionsFirstSeen together with TypeTimesAppend.
- FeatureOptions: its own contract states membership and distinctness. First-seen order is stated separately, by FeatureOptionsFirstSeen together with TimeFeaturesAppend.
- AllFeatures: its own contract states membership and distinctness. First-seen order is stated separately, by AllFeaturesFirstSeen together with CatalogFeaturesAppend.
