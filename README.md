# Accessible Kendo DropDownList: a Dafny model

`KendoAccessibleDropDownList.js` extends Kendo UI's DropDownList so that screen
readers describe it better. This project models what the extension does on top
of the base widget.

- **`init`.**
  - It appends " (custom)" to the placeholder.
  - It gives the wrapper a `title` and `aria-selected`.
  - It links the wrapper to its label through `aria-labelledby`. The label is
    given the id `<element id>_label` when it has no id of its own.
  - It marks the popup's option label as an option.
  - It then takes one of two branches:
    - **Off a Mac:** the generated `.k-input` becomes a polite live region.
    - **On a Mac (VoiceOver):** the "option count workaround" runs. The
      `.k-input` becomes a selected option with id `<element id>-kinput`. The
      wrapper gets one empty `span[role=option]` marker per option, less one
      (less two on Safari). The source `<select>` moves behind the last marker.
      The selected index is recorded, and a deferred write of
      `aria-activedescendant` is scheduled.
- **`_change`.** On a Mac, it moves `.k-dropdown-wrap` among the markers
  (`_reorderOptions`) before the base handler runs. The goal is that VoiceOver's
  "x of y" matches the selection.
- **`_select`.** On a Mac, it schedules the `aria-activedescendant` write again.
- **`open` / `close`.** Off a Mac, they switch the live region of `.k-input`
  off and back on.
- **Blur handler.** It refreshes the wrapper's `title`.

The modules:

- **`Text`**: ASCII case mapping and `indexOf`.
- **`Platform`**: `_isMacOs` and `_isSafariBrowser`, on the environment strings,
  each with a lemma saying what it accepts.
- **`Annotations`**: the computed strings and counts of `init`.
- **`Ordinal`**: the wrapper's child list, as a sequence of node kinds.
  - The kinds are `Marker`, `GeneratedWrap` (`.k-dropdown-wrap`),
    `SourceElement` and `Other`.
  - It holds the jQuery moves and the construction and reorder steps as
    functions, and the lemmas about them.
- **`DropDown`**: the widget as a class. Its fields are the child list and the
  attribute maps the overrides write. Its methods are the lifecycle overrides.

### How the code behaves (it sometimes differs from its own comments)

- **`_reorderOptions` schedules nothing.** It only moves the wrap and records the
  index; `_select` is what schedules the `aria-activedescendant` write again.
  `DropDown.AccessibleDropDownList.ReorderOptions` follows the code.
- **Construction does not place the wrap at the selected index.**
  - Construction records the current selected index as the previous one, but
    leaves `.k-dropdown-wrap` at index 0, in front of all the markers
    (`Ordinal.ConstructionStartsLayout`).
  - While the selection stays at a starting index other than 0, the wrap
    therefore sits at 0.
  - From that start, a move up to a marker index still lands the wrap on that
    index. A move down to an index above 0 lands it one place short, at
    selected − 1 (`Ordinal.ReorderFromStart`).
  - `Ordinal.ReorderAfterNonZeroStart` gives a concrete case.
  - `Ordinal.ReorderTracksSelection` proves that the wrap lands at the selected
    index under three conditions:
    - the wrap stands at the recorded index;
    - only markers precede it;
    - the new index is at most the number of markers, so the
      (selected+1)-th child is a marker.
- **On Safari the last option is never lined up.**
  - Safari gets two markers fewer than there are options, so the last option's
    index names the child behind the last marker.
  - That child is the source element, not a marker. Selecting the last option
    therefore leaves the wrap where it was
    (`DropDown.SafariLastOptionUnplaced`, `Ordinal.ReorderPastLastMarker`).
- **With no marker, the source element moves into `.k-dropdown-wrap`.** No
  marker is appended when there is at most one option, or at most two on
  Safari.
  - `find("span[role=option]:last")` searches all descendants, so it then
    matches the `.k-input` span, which has just been given `role=option`. The
    source element moves inside `.k-dropdown-wrap`.
  - From then on, `_getWrapper()` is `.k-dropdown-wrap`. The deferred write
    lands there, and reorders find nothing to move.
  - The field `sourceIsWrapperChild` is false exactly in this case.
- **`init` changes the page's options object.** When the page passes an
  options object, `init` appends " (custom)" to that object's own placeholder.
  A page that reuses one options object for several widgets collects the
  suffix once per widget (`Annotations.PlaceholderReused`).
- **The two ids come from different places.**
  - The label id uses the `id` attribute, so an element without one yields
    `undefined_label`. An empty label id is replaced as well.
  - The `-kinput` id uses the DOM `id` property, which is the empty string
    when there is no id.

## Model

| member | source | states |
|---|---|---|
| Text.Upper | kendo-a11y-dropdownlist/KendoAccessibleDropDownList.js:191 | `toUpperCase` keeps the length and maps each character to its ASCII upper case |
| Text.Lower | kendo-a11y-dropdownlist/KendoAccessibleDropDownList.js:196 | the `i` flag's case folding keeps the length and maps each character to its ASCII lower case |
| Text.IndexOf | kendo-a11y-dropdownlist/KendoAccessibleDropDownList.js:191 | `indexOf` returns -1 exactly when the word occurs nowhere at or after `from`; otherwise it returns a position where the word occurs and before which it does not |
| Platform.IsMacOs | kendo-a11y-dropdownlist/KendoAccessibleDropDownList.js:191 | `navigator.platform.toUpperCase().indexOf('MAC') >= 0`; what it accepts is stated by `Platform.IsMacOsIff` |
| Platform.IsMacOsIff | kendo-a11y-dropdownlist/KendoAccessibleDropDownList.js:190-192 | `_isMacOs` holds exactly when "mac" occurs in the platform string in any letter case |
| Platform.SafariFrom | kendo-a11y-dropdownlist/KendoAccessibleDropDownList.js:196 | the backtracking scan of the user-agent regular expression over the case-folded text; its meaning is stated by `Platform.SafariFromIff` |
| Platform.IsSafariBrowser | kendo-a11y-dropdownlist/KendoAccessibleDropDownList.js:196 | the regular expression tested on the case-folded user agent; what it accepts is stated by `Platform.IsSafariBrowserIff` |
| Platform.SafariFromIff | kendo-a11y-dropdownlist/KendoAccessibleDropDownList.js:195-197 | the left-to-right scan succeeds from position i exactly when "safari" starts at some k ≥ i and every position in [i, k) starts neither "chrome" nor "android" and holds no line terminator |
| Platform.IsSafariBrowserIff | kendo-a11y-dropdownlist/KendoAccessibleDropDownList.js:195-197 | `_isSafariBrowser` holds exactly when the case-folded user agent has such a "safari" when matched from the start |
| Platform.ChromeBeforeSafari | kendo-a11y-dropdownlist/KendoAccessibleDropDownList.js:196 | a user agent in which "chrome" starts before any "safari" is never taken for Safari |
| Annotations.PlaceholderText | kendo-a11y-dropdownlist/KendoAccessibleDropDownList.js:24 | `placeholder += " (custom)"` on a string, `undefined` or `null`; its shape is stated by `Annotations.PlaceholderTextShape` |
| Annotations.PlaceholderTextShape | kendo-a11y-dropdownlist/KendoAccessibleDropDownList.js:23-24 | the placeholder ends in " (custom)" and keeps its own text as a prefix; a missing one becomes "undefined (custom)" and a null one "null (custom)" |
| Annotations.PlaceholderReused | kendo-a11y-dropdownlist/KendoAccessibleDropDownList.js:23-24 | an options object passed to two widgets ends with the suffix twice |
| Annotations.LabelId | kendo-a11y-dropdownlist/KendoAccessibleDropDownList.js:37-39 | the label's own id unless it is missing or empty, else the element id with "_label"; stated by `Annotations.LabelIdCases` |
| Annotations.LabelIdCases | kendo-a11y-dropdownlist/KendoAccessibleDropDownList.js:35-42 | a non-empty existing label id is kept; otherwise the id is the element id (or "undefined") followed by "_label" |
| Annotations.KInputId | kendo-a11y-dropdownlist/KendoAccessibleDropDownList.js:141 | the element's `id` property followed by "-kinput"; stated by `Annotations.KInputIdShape` |
| Annotations.KInputIdShape | kendo-a11y-dropdownlist/KendoAccessibleDropDownList.js:141 | the generated input's id is the element's id property followed by "-kinput", and exactly "-kinput" when there is no id |
| Annotations.OptionOffset | kendo-a11y-dropdownlist/KendoAccessibleDropDownList.js:148 | the offset is 1 or 2, and it is 2 exactly on Safari |
| Annotations.MarkerCount | kendo-a11y-dropdownlist/KendoAccessibleDropDownList.js:148-151 | the loop appends optionCount − offset markers when that is positive, and none exactly when optionCount ≤ offset |
| Ordinal.Markers | kendo-a11y-dropdownlist/KendoAccessibleDropDownList.js:149-151 | the appended run has the requested length and holds only markers |
| Ordinal.FirstIndex | kendo-a11y-dropdownlist/KendoAccessibleDropDownList.js:176 | `:first` picks a child of the kind with none of that kind before it |
| Ordinal.LastIndex | kendo-a11y-dropdownlist/KendoAccessibleDropDownList.js:153 | `:last` picks a child of the kind with none of that kind after it |
| Ordinal.NthChildMarker | kendo-a11y-dropdownlist/KendoAccessibleDropDownList.js:181-183 | `children("span[role=option]:nth-child(n)")`: the child at 1-based position n when it is a marker, else nothing |
| Ordinal.MoveBefore | kendo-a11y-dropdownlist/KendoAccessibleDropDownList.js:176 | jQuery `insertBefore`: the moved child ends right in front of the target; see `Ordinal.ReorderToFirst` and `Ordinal.ReorderBackward` |
| Ordinal.MoveAfter | kendo-a11y-dropdownlist/KendoAccessibleDropDownList.js:181 | jQuery `insertAfter`: the moved child ends right behind the target; see `Ordinal.ReorderForward` |
| Ordinal.Reorder | kendo-a11y-dropdownlist/KendoAccessibleDropDownList.js:169-187 | `_reorderOptions` on the child list; its properties are the `Ordinal.Reorder…` lemmas below |
| Ordinal.ReorderPermutes | kendo-a11y-dropdownlist/KendoAccessibleDropDownList.js:169-187 | a reorder is a permutation of the children: the marker count is kept, and the children other than the wrap keep their order |
| Ordinal.ReorderNoMove | kendo-a11y-dropdownlist/KendoAccessibleDropDownList.js:170-183 | nothing moves when the index is unchanged, when there is no `.k-dropdown-wrap`, when index 0 finds no marker, or when the (selected+1)-th child is not a marker |
| Ordinal.ReorderToFirst | kendo-a11y-dropdownlist/KendoAccessibleDropDownList.js:174-176 | for index 0, the wrap ends immediately before the first marker |
| Ordinal.ReorderForward | kendo-a11y-dropdownlist/KendoAccessibleDropDownList.js:180-181 | moving to a higher index, the wrap ends immediately after the marker that was the (selected+1)-th child |
| Ordinal.ReorderBackward | kendo-a11y-dropdownlist/KendoAccessibleDropDownList.js:182-183 | moving to a lower index, the wrap ends immediately before that marker |
| Ordinal.ReorderLandsAt | kendo-a11y-dropdownlist/KendoAccessibleDropDownList.js:174-184 | when the recorded index is the wrap's position and the target child is a marker, all three branches put the wrap at index `selected` |
| Ordinal.ReorderTracksSelection | kendo-a11y-dropdownlist/KendoAccessibleDropDownList.js:168-187 | when the wrap stands at the recorded index a with only markers before it and b markers behind it, a reorder to any new index 0 ≤ selected ≤ a + b puts it at that index among the same markers |
| Ordinal.ReorderAfterNonZeroStart | kendo-a11y-dropdownlist/KendoAccessibleDropDownList.js:152-155 | after construction with selected index 2, selecting index 1 leaves the wrap at index 0, not at 1 |
| Ordinal.ReorderFromStart | kendo-a11y-dropdownlist/KendoAccessibleDropDownList.js:152-155 | from the construction layout (the wrap at index 0, n markers behind it), for a new index 1 ≤ selected ≤ n that differs from the recorded one: a move up lands the wrap at `selected`, a move down at selected − 1 |
| Ordinal.ReorderFromFront | kendo-a11y-dropdownlist/KendoAccessibleDropDownList.js:176-183 | from a list that starts with the wrap, the wrap is put in at `selected` when moving up and at `selected - 1` when moving down |
| Ordinal.ReorderPastLastMarker | kendo-a11y-dropdownlist/KendoAccessibleDropDownList.js:181-183 | an index one past the last marker of the layout finds no marker, and nothing moves |
| DropDown.SafariLastOptionUnplaced | kendo-a11y-dropdownlist/KendoAccessibleDropDownList.js:148-151 | on Safari, selecting the last option leaves the wrap where it was |
| Ordinal.PlaceSource | kendo-a11y-dropdownlist/KendoAccessibleDropDownList.js:153 | `insertAfter` of the source element behind the last `span[role=option]`, or out of the list when that span is the `.k-input`; stated by `Ordinal.ConstructionLayout` |
| Ordinal.ConstructionLayout | kendo-a11y-dropdownlist/KendoAccessibleDropDownList.js:149-153 | after construction the source element follows the appended markers at the very end, or has left the list when no marker was appended |
| Ordinal.ConstructionStartsLayout | kendo-a11y-dropdownlist/KendoAccessibleDropDownList.js:149-155 | on a wrapper holding the wrap and the source element, construction with markers gives the wrap at index 0 with all markers behind it, whatever index is recorded |
| Ordinal.CountsAfterConstruction | kendo-a11y-dropdownlist/KendoAccessibleDropDownList.js:149-153 | construction yields exactly n markers, keeps the wraps, and keeps the source element only when n > 0 |
| Ordinal.BuildOptionSet | kendo-a11y-dropdownlist/KendoAccessibleDropDownList.js:149-153 | the append loop followed by `insertAfter` computes the construction layout and its counts |
| DropDown.AccessibleDropDownList.constructor | kendo-a11y-dropdownlist/KendoAccessibleDropDownList.js:21-66 | the full state after `init`: the suffixed placeholder, also written back into the page's options object, title, aria-selected, label linkage, option-label role, and either the live region on the input (off a Mac) or the option-count workaround with the live region on the wrapper and a pending `aria-activedescendant` (on a Mac) |
| DropDown.Options.AppendSuffix | kendo-a11y-dropdownlist/KendoAccessibleDropDownList.js:23-24 | the page's options object gets the suffixed placeholder, and the same text is returned to `init` |
| DropDown.ExistingLabelId | kendo-a11y-dropdownlist/KendoAccessibleDropDownList.js:36-37 | `$label.attr("id")`: absent when no preceding label was found or it has no `id`, otherwise that label's `id` |
| DropDown.WithLabelId | kendo-a11y-dropdownlist/KendoAccessibleDropDownList.js:40 | `$label.attr("id", labelId)`: an empty lookup stays `None`; otherwise only the label's `Id` is overwritten |
| DropDown.WithOptionRole | kendo-a11y-dropdownlist/KendoAccessibleDropDownList.js:44-45 | `optionLabel.attr("role", "option")`: an empty lookup stays `None`; otherwise only the option label's `Role` is overwritten |
| DropDown.AnnotatedWrapper | kendo-a11y-dropdownlist/KendoAccessibleDropDownList.js:31-42 | the wrapper's `title`, `aria-selected` and `aria-labelledby` after `init`, as used in the constructor's contract |
| DropDown.LivePolite | kendo-a11y-dropdownlist/KendoAccessibleDropDownList.js:54-59 | `aria-live="polite"` and `aria-atomic="true"` on a node |
| DropDown.SelectedOption | kendo-a11y-dropdownlist/KendoAccessibleDropDownList.js:143-145 | the generated input's id, `role="option"` and `aria-selected="true"` |
| DropDown.AccessibleDropDownList.ReorderOptions | kendo-a11y-dropdownlist/KendoAccessibleDropDownList.js:169-187 | the children become the reorder of the old children (unchanged once the source sits inside the wrap), the new index is recorded, and the counts invariant is kept |
| DropDown.AccessibleDropDownList.Change | kendo-a11y-dropdownlist/KendoAccessibleDropDownList.js:70-75 | on a Mac the reorder runs and records the index; off a Mac nothing changes |
| DropDown.AccessibleDropDownList.Select | kendo-a11y-dropdownlist/KendoAccessibleDropDownList.js:79-85 | on a Mac the `aria-activedescendant` write to the "-kinput" id is pending again; off a Mac nothing changes |
| DropDown.AccessibleDropDownList.RunDeferred | kendo-a11y-dropdownlist/KendoAccessibleDropDownList.js:160-166 | the pending write lands on the element's current parent (the wrapper, or `.k-dropdown-wrap` once the source moved into it) and is cleared |
| DropDown.AccessibleDropDownList.Open | kendo-a11y-dropdownlist/KendoAccessibleDropDownList.js:88-93 | off a Mac the input's `aria-live` becomes "off"; on a Mac nothing changes |
| DropDown.AccessibleDropDownList.Close | kendo-a11y-dropdownlist/KendoAccessibleDropDownList.js:96-101 | off a Mac the input's `aria-live` becomes "polite"; on a Mac nothing changes |
| DropDown.AccessibleDropDownList.Blur | kendo-a11y-dropdownlist/KendoAccessibleDropDownList.js:63-66 | the wrapper's title becomes the displayed text |

## Left out

- Calls into the base widget (`baseInit`, `baseChange`, `baseSelect`, `baseOpen`, `baseClose`) and their return values: Kendo's own code is not part of this model. The constructor instead receives the DOM that `baseInit` leaves behind, as a `BaseDom` value.
- `kendo.ui.plugin` registration and the `options.name` setting: they are registration, not behaviour.
- `setTimeout(..., 0)` is modelled as a pending write that `RunDeferred` carries out. The interleaving with other events is not modelled.
- `navigator.platform` and `navigator.userAgent` become parameters of the constructor.
- `kendo.format("{0}", this.text())` is taken as the displayed text itself. The displayed text is a parameter.
- The jQuery lookups of other elements become values the constructor receives in `BaseDom`:
  - the preceding label, `prev('[for=...]')`;
  - the popup's option label, `_getOptionLabel`;
  - `.k-dropdown-wrap` and `.k-input`, found with `find`.
  - A lookup that finds nothing is `None`, or has no effect.
  - Selector syntax errors for unusual ids are not modelled.
- The lookups among the wrapper's children become functions on the child list:
  - `children("span[role=option]:first")` is `Ordinal.FirstIndex`;
  - `:nth-child(...)` is `Ordinal.NthChildMarker`;
  - `find("span[role=option]:last")` is `Ordinal.LastIndex`, within `Ordinal.PlaceSource`.
- The wrapper is assumed to hold exactly one `.k-dropdown-wrap`. The model works on kinds of children and not on individual nodes.
- Text.Upper, Text.Lower: case mapping covers ASCII letters only. JavaScript's full Unicode case mapping is not modelled.
- Attributes other than the eight the overrides read or write are not modelled.
- The blur handler's registration is left out. Only the handler's effect is modelled, as `Blur`.
