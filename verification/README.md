# Sortable, selectable data table and text input field — a verified model

This project models the state logic of two presentational widgets:

- **DataTable** (`src/components/DataTable.tsx`). The table keeps a sort state `{ key, direction }`. It derives a sorted view of its `data` from that state, using a three-way comparator in which null fields sort first. It also keeps a selection: a set of indices into that view, in insertion order.
  - `toggleSort` cycles a column through ascending, descending and unsorted.
  - `handleRowToggle` selects one row in single mode and flips one row in multiple mode.
  - `toggleAll` selects every row, or clears a selection whose size is the row count.
  - Both selection handlers hand the selected rows of the current view to `onRowSelect`.
- **InputField** (`src/components/InputField.tsx`). The field is controlled when the caller passes a `value`. Otherwise it falls back to an internal string.
  - A password field can show its text.
  - A clear button empties the field. A controlled field asks its caller for `""`. An uncontrolled field empties its internal value without calling `onChange`.

Modules:

- `Wrappers` (`wrappers.dfy`): `Option`.
- `TableValues` (`table_values.dfy`): field values, rows, and the comparator. The comparator appears twice: as written, and corrected (see Findings).
- `TableSort` (`table_sort.dfy`): a stable insertion sort parameterised by a comparator.
  - `SortRows` is the sort as a function on sequences.
  - `SortInPlace` sorts an array in place and is proved to produce `SortRows`.
  - Lemmas prove that it is a permutation, is ordered on a column of one kind, is stable and is idempotent.
- `TableSelection` (`table_selection.dfy`): the selection as a duplicate-free `seq<nat>`, which matches the insertion order of a JavaScript `Set`. It also holds the pure updaters behind `handleRowToggle` and `toggleAll`.
- `DataTable` (`data_table.dfy`): the sort-state machine and the derived view. The class `Table` holds the `sort` and `selected` state, with one method per handler.
- `InputField` (`input_field.dfy`): the props as a value. The class `Field` holds the `internal` and `showPassword` state.

Each handler is one atomic transition. The callback it would invoke (`onRowSelect`, `onChange`) becomes its return value. `None` means the callback is not called.

The view is recomputed from `data` and `sort`. After `toggleSort` the selected indices stay as they are, so they then refer to positions in the re-sorted view, as in the source.

## Model

| member | source | states |
|---|---|---|
| TableValues.Field | src/components/DataTable.tsx:39-40 | definition of the field read: a field missing from a row reads as null, a present field as its value |
| TableValues.StrLess | src/components/DataTable.tsx:43-44 | definition of `<` on two strings: lexicographic order of their characters (its order laws are proved by StrLessTransitive and StrLessTrichotomy) |
| TableValues.ValueLess | src/components/DataTable.tsx:43-44 | definition of `<` on two cell values: numeric on numbers, lexicographic on strings, false between kinds (its order laws are proved by ValueLessTotalOrder) |
| TableValues.CompareAsWritten | src/components/DataTable.tsx:38-46 | the comparator as written returns -1, 0 or 1, and returns -1 whenever the first row's field is null, whatever the second row holds |
| TableValues.Compare | src/components/DataTable.tsx:38-46 | the corrected comparator returns -1, 0 or 1, and ties two null fields |
| TableValues.NullSortsFirst | src/components/DataTable.tsx:41-42 | a row with a null field compares below a row with a present field in both directions, under both comparators |
| TableValues.DescNegatesAsc | src/components/DataTable.tsx:43-44 | for two present values, the descending result is the negation of the ascending one |
| TableValues.CompareZeroIffEqual | src/components/DataTable.tsx:43-45 | two present values of one kind compare 0 exactly when they are equal |
| TableValues.EqualFieldsTie | src/components/DataTable.tsx:41-45 | rows with equal fields, null or not, always compare 0 under the corrected comparator |
| TableValues.CompareAntisymmetric | src/components/DataTable.tsx:41-45 | swapping the rows negates the corrected comparator's result, for every pair of rows |
| TableValues.AsWrittenInconsistentOnNulls | src/components/DataTable.tsx:41 | with two null fields the comparator as written returns -1 in both orders, so it is not antisymmetric |
| TableValues.GreaterAgrees | src/components/DataTable.tsx:41-45 | the two comparators agree on every pair except two nulls, and they always agree on whether the result is positive, which is the only question the insertion sort asks |
| TableValues.CompareTransitive | src/components/DataTable.tsx:43-45 | on a column of one kind, "compares at most 0" is transitive |
| TableValues.ValueLessTotalOrder | src/components/DataTable.tsx:43-44 | `<` on two numbers or two strings is irreflexive, transitive and total |
| TableValues.AsWrittenFor | src/components/DataTable.tsx:38-46 | definition: the comparator as written, as the function value the source hands to `copy.sort` |
| TableValues.ComparatorFor | src/components/DataTable.tsx:38-46 | definition: the corrected comparator as a function value, which specifies the view |
| TableSort.InsertLast | src/components/DataTable.tsx:38 | definition of one insertion step: the new row moves left past every row that must follow it; the result is one longer (its placement is proved by InsertLastAt) |
| TableSort.SortRows | src/components/DataTable.tsx:38 | definition of the stable insertion sort that stands in for `copy.sort`; the result is as long as the input (its properties are the SortRows lemmas below) |
| TableSort.SortRowsAgree | src/components/DataTable.tsx:38 | two comparators that ask to move the same pairs produce the same sorted sequence |
| TableSort.SortRowsPermutes | src/components/DataTable.tsx:37-38 | sorting yields a permutation of its input: the same multiset of rows |
| TableSort.ComparatorIsPreorder | src/components/DataTable.tsx:41-45 | on a column of one kind the comparator is total and transitive |
| TableSort.SortRowsOrdered | src/components/DataTable.tsx:38 | under a total, transitive comparator the sorted rows are pairwise in order, and the rows stay of one kind |
| TableSort.ComparatorTiesOnEqual | src/components/DataTable.tsx:45 | the comparator ties every pair of rows with equal values in the sorted field |
| TableSort.SortRowsStable | src/components/DataTable.tsx:38 | under a comparator that ties equal values, rows sharing a value keep their input order |
| TableSort.OrderedIsFixed | src/components/DataTable.tsx:38 | input that is already in order is left exactly as it is |
| TableSort.SortRowsIdempotent | src/components/DataTable.tsx:38 | sorting a sorted sequence again changes nothing |
| TableSort.InsertLastAt | src/components/DataTable.tsx:38 | inserting one row places it after every row it does not precede and before the rows that must follow it |
| TableSort.ShiftGreater | src/components/DataTable.tsx:38 | the in-place pass shifts right exactly the rows that must follow the inserted row, leaves the rest of the array alone, and returns the insertion point |
| TableSort.InsertAt | src/components/DataTable.tsx:38 | one in-place insertion step turns the array prefix into the functional insertion of the next row, and leaves the suffix unchanged |
| TableSort.SortInPlace | src/components/DataTable.tsx:37-38 | sorting the copy in place leaves exactly the functional sort of its original contents |
| TableSelection.Range | src/components/DataTable.tsx:82 | the indices 0 to n-1, in order, each once |
| TableSelection.Members | src/components/DataTable.tsx:33 | definition: the set of indices in the insertion-ordered selection |
| TableSelection.Without | src/components/DataTable.tsx:67 | deleting an index removes exactly that index, keeps the rest duplicate-free, and changes nothing when the index is absent |
| TableSelection.WithoutAt | src/components/DataTable.tsx:67 | deleting an index that occurs once removes exactly its position and keeps the insertion order of the remaining indices |
| TableSelection.RowToggled | src/components/DataTable.tsx:62-68 | in single mode the new selection is exactly the clicked index; in multiple mode the clicked index flips, every other index keeps its membership, and an added index goes last |
| TableSelection.AllToggled | src/components/DataTable.tsx:78-84 | a selection whose size is the row count becomes empty; any other becomes every index once each, in the order 0 to n-1 in which `sorted.map` inserts them |
| TableSelection.RowsAt | src/components/DataTable.tsx:69 | the callback gets as many rows as there are selected indices, each the view's row at that index, in selection order |
| TableSelection.RowsOfRange | src/components/DataTable.tsx:82-83 | the rows at every index, in order, are the whole view |
| TableSelection.FullSizeMeansEveryRow | src/components/DataTable.tsx:74 | a duplicate-free, in-range selection has the row count as its size exactly when it holds every index |
| TableSelection.ToggleRowTwice | src/components/DataTable.tsx:67 | in multiple mode, toggling one row twice restores the selected set, and restores the sequence too when the row was not selected before |
| TableSelection.SingleReplaces | src/components/DataTable.tsx:63-65 | in single mode the last click decides the selection, including a second click on the selected row, which does not deselect it |
| TableSelection.ToggleAllTwice | src/components/DataTable.tsx:78-84 | two calls restore the selected set exactly when the selection was empty or full |
| TableSelection.ToggleAllFromPartial | src/components/DataTable.tsx:78-84 | from any selection whose size is not the row count, two calls end with nothing selected |
| DataTable.NextSort | src/components/DataTable.tsx:50-56 | the updater keeps key and direction null together and only ever sorts the clicked column; a different or absent key becomes the clicked column ascending, the clicked column ascending becomes descending, and the result is descending only from the clicked column ascending |
| DataTable.WellFormed | src/components/DataTable.tsx:21 | definition of the sort-state invariant: the key is null exactly when the direction is (kept by NextSort and Table.ToggleSort) |
| DataTable.Active | src/components/DataTable.tsx:36 | definition of the test that applies a sort: a key that is present and not the falsy "", and a direction |
| DataTable.ToggleSortCycle | src/components/DataTable.tsx:52-54 | another column, or nothing, becomes this column ascending; ascending becomes descending; descending becomes unsorted |
| DataTable.ThreeTogglesRestore | src/components/DataTable.tsx:50-56 | three clicks on one column restore the sort state exactly when that column was sorted or nothing was; from the initial state they leave the data unsorted |
| DataTable.SortedView | src/components/DataTable.tsx:35-48 | the view has as many rows as the data, and is the data itself when no sort is active, including when the key is the falsy "" |
| DataTable.ViewIsPermutation | src/components/DataTable.tsx:36-47 | the view is a permutation of the data |
| DataTable.ViewIsStable | src/components/DataTable.tsx:38-46 | rows with the same value in the sorted field appear in the view in their input order |
| DataTable.ViewIsOrdered | src/components/DataTable.tsx:38-46 | on a column of one kind, null fields come first; after them present values are non-decreasing when ascending and non-increasing when descending |
| DataTable.AsWrittenGivesView | src/components/DataTable.tsx:38-46 | sorting with the comparator as written yields exactly the specified view, so the view lemmas describe the code as written |
| DataTable.ViewIsIdempotent | src/components/DataTable.tsx:35-48 | sorting the view again under the same state reproduces it |
| DataTable.Table.View | src/components/DataTable.tsx:35-48 | the memoised `sorted`: as many rows as the data, and a permutation of them |
| DataTable.Table.AllSelected | src/components/DataTable.tsx:74 | all rows count as selected exactly when the table is non-empty and every index is selected |
| DataTable.Table.constructor | src/components/DataTable.tsx:32-33 | a new table is unsorted with nothing selected |
| DataTable.Table.ComputeView | src/components/DataTable.tsx:35-48 | copying the data and sorting the copy in place with the comparator as written gives the derived view |
| DataTable.Table.ToggleSort | src/components/DataTable.tsx:50-56 | the sort state advances by the updater, stays well formed, and the selected indices are unchanged |
| DataTable.Table.ClickHeader | src/components/DataTable.tsx:104 | a header click toggles the sort only on a sortable column, by its `dataIndex` |
| DataTable.Table.HandleRowToggle | src/components/DataTable.tsx:60-72 | single mode selects exactly the clicked row; multiple mode flips it; the callback gets the view's rows at the new selection, in insertion order; the sort is unchanged |
| DataTable.Table.ToggleAll | src/components/DataTable.tsx:75-86 | nothing happens in single mode; in multiple mode a full-size selection is cleared and the callback gets no rows, and otherwise every row is selected and the callback gets the whole view |
| DataTable.AgeSortScenario | src/components/DataTable.tsx:50-56 | three people sorted by age: ascending, then descending, then the input order again |
| DataTable.SelectAllScenario | src/components/DataTable.tsx:60-86 | with three rows in multiple mode, selecting rows 0 and 2 and then toggling all selects {0, 1, 2} and reports every row; toggling all again selects nothing |
| InputField.Field.constructor | src/components/InputField.tsx:46-47 | a mounted field starts with an empty internal value and the password hidden |
| InputField.Field.Current | src/components/InputField.tsx:48-49 | definition of `current`: the caller's value when controlled, the internal value otherwise |
| InputField.IsControlled | src/components/InputField.tsx:48 | definition: the field is controlled exactly when the caller supplies a value |
| InputField.IsPassword | src/components/InputField.tsx:74 | definition: the field is a password field exactly when its type is "password" |
| InputField.Field.ShowClear | src/components/InputField.tsx:73 | definition of `showClear`: the shown value is non-empty and the field is neither disabled nor loading |
| InputField.Field.ClearOffered | src/components/InputField.tsx:117 | definition of when the clear button is rendered: `showClear` on a field that is not a password field |
| InputField.Field.EffectiveType | src/components/InputField.tsx:51 | the input type is the given type or "text"; it is "password" exactly for a hidden password field, and "text" exactly for a text field or a shown password field |
| InputField.Field.HandleChange | src/components/InputField.tsx:68-71 | the new value is always forwarded; only an uncontrolled field stores it |
| InputField.Field.TogglePassword | src/components/InputField.tsx:106-109 | on a password field the button flips the visibility, and the shown value is unchanged |
| InputField.TogglePasswordTwice | src/components/InputField.tsx:109 | two clicks restore the visibility and the displayed type |
| InputField.Field.Clear | src/components/InputField.tsx:117-120 | a controlled field asks its caller for "" and keeps its internal value; an uncontrolled field empties its internal value without calling `onChange`, after which no clear button is offered |
| InputField.UncontrolledScenario | src/components/InputField.tsx:68-73 | typing "ab" into an uncontrolled text field shows it and offers clearing; clearing empties it and hides the clear button |
| InputField.ControlledClearScenario | src/components/InputField.tsx:117-120 | clearing a controlled field asks for "" while the shown value stays the caller's |

## Left out

- Rendering is not modelled: JSX markup, CSS class composition, animation, aria attributes, the spinner, and the loading and "No data" rows. None of it changes state.
- React machinery is not modelled: `useState`, `useMemo`, `useId`, `forwardRef`. A strict-mode double call of a state updater is also out. Each handler is one atomic transition with at most one callback.
- `rowKey` and `keyFor` are not modelled. They only produce reconciliation keys.
- The `selectable` prop is not modelled. It only decides whether the checkboxes are rendered, and the handlers behave the same either way.
- `data` and `selectionMode` are fixed for the lifetime of a `Table`. A parent that passes new props between renders is not modelled.
- `onRowSelect` and `onChange` are modelled as return values. Whether the caller passed a callback at all is not modelled.
- Field values are null, integers or strings. JavaScript floating-point numbers, booleans, dates and nested objects are not modelled.
- Strings compare by Dafny characters. JavaScript compares by UTF-16 code units.
- `TableValues.ValueLess`: `<` between a number and a string is false in both directions in the model. JavaScript converts the string to a number first. Because of this, ordering is proved only for a column whose present values are all of one kind. Permutation and stability hold for every column.
- The engine's own `Array.prototype.sort` algorithm is not modelled. In its place is a stable insertion sort, which ECMAScript permits (it does not require any particular algorithm, and requires stability since ECMAScript 2019).
- `toggleAll` is not self-inverse: two calls restore the selected set only from an empty or a full selection, and from any other selection they end with nothing selected. `TableSelection.ToggleAllTwice` states the exact condition.
- The `loading` and `disabled` flags of the input field are modelled only where they gate the clear button. Their visual effects and the blocking of mouse input are out.
- Labels, helper text, error messages, variants and sizes of the input field are not modelled. They are display only.

## Findings

| source | as written | input that shows it | evidently intended | confidence | as-written member | corrected member |
|---|---|---|---|---|---|---|
| src/components/DataTable.tsx:41-42 | the comparator returns -1 whenever the first row's field is null, even when the second row's field is null too | two rows whose sorted field is null: comparing in either order gives -1, so the comparator is not consistent, and ECMAScript then leaves the sort order implementation-defined | two null fields tie (return 0), so null rows keep their input order like any other equal values | not executed | TableValues.AsWrittenInconsistentOnNulls | TableValues.CompareAntisymmetric |

The view is specified with the corrected `TableValues.Compare`. `Table.ComputeView` sorts with the comparator as written, as the source does. `TableValues.GreaterAgrees` proves that both comparators give a positive result on exactly the same pairs. The insertion sort asks only that question, and `TableSort.SortRowsAgree` with `DataTable.AsWrittenGivesView` proves that both comparators give the same view. Under an engine whose sort algorithm does more than ask that question, the as-written comparator can still misorder rows with null fields.
