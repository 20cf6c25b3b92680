# Employee table and validated input field, modelled in Dafny

This project models the logic of two React components of a demonstration UI.

- **The employee table** (`src/components/DataTable.tsx`) holds employee records.
  It filters them by a free-text search, a department and a status.
  It sorts them on one column, ascending or descending, and shows one page of them.
  A footer reads "Showing X to Y of N results" and carries a page-size choice, previous/next buttons and a window of up to five page-number buttons.
- **The input field** (`src/components/InputField.tsx`) validates one string value.
  It checks a required-field rule and a list of (test, message) rules, and tracks whether the field is focused and has been touched.
  From that state it derives a status icon, a border colour and the input's `type`.
  The demonstration form beside it supplies password, confirm-password, e-mail and phone rules, and keeps the form's values in one record.

The modules follow the two files:

| file | module | what it holds |
|---|---|---|
| `text.dfy` | `Text` | the JavaScript string operations used: `toLowerCase`, `trim`, `includes`, `\s`, the decimal `toString` of a non-negative integer, `<` on strings, and `length` in UTF-16 code units |
| `table_query.dfy` | `TableQuery` | the records, and the pure derivations `departments`, `statuses`, `filteredData`, `sortedData`, `totalPages`, `paginatedData`, the footer numbers and the page-number window |
| `data_table.dfy` | `DataTable` | the component's seven state fields as the class `TableState`, with its event handlers as methods |
| `mock_data.dfy` | `MockEmployees` | the twelve demonstration records, used as a concrete instance of the general lemmas |
| `scenarios.dfy` | `TableScenarios` | a sequence of handler calls that ends on a page past the last one |
| `validation.dfy` | `Validation` | `validateInput` with its rule loop, its specification function `Errors`, the demonstration rules, and the status, border and input-type functions |
| `input_field.dfy` | `InputField` | the field's state as the class `FieldState`, and the demonstration form's values as the class `RegistrationForm` |

Decisions about the source's behaviour:

- Sorting is specified as a stable sort. `Array.prototype.sort` has been required to be stable since the 2019 edition of ECMA-262.
  `SortBy` is an insertion sort under the component's comparator.
  `StableSortUnique` shows that any ordered, stable rearrangement equals it, so the choice of algorithm does not matter.
- The code neither clamps the page number to the page count nor resets it when the search or a filter changes:
  the search box and the two dropdowns (`DataTable.tsx:280`, `:288`, `:299`) change only their own state.
  The model follows the code. `StalePageIsEmpty` and `TableScenarios.StalePageAfterFilter` show the consequence: a selected page past the last one shows no rows.
- The next-page button is disabled only when the page number *equals* the page count.
  On a stale page it stays enabled, and `NextPage` moves further on.
- Effects run synchronously. A handler's state change and the re-derivation that React performs on the next render are one step in the model.
  The field's validation effect, which runs when the value or the rule list changes, is part of `HandleChange`, `SyncControlledValue` and `UpdateRules`.
- The record's `id` and `salary` are natural numbers. Their search text is their decimal string.

## Model

| member | source | states |
|---|---|---|
| Text.ToLower | src/components/DataTable.tsx:164 | `toLowerCase` keeps the length, leaves no ASCII upper-case letter, maps each upper-case letter to its own lower-case partner (32 code points on) and keeps every other character |
| Text.ToLowerIdempotent | src/components/DataTable.tsx:164 | lower-casing an already lower-cased string changes nothing |
| Text.Contains | src/components/DataTable.tsx:164 | `includes`: a string includes the empty string and nothing longer than itself |
| Text.Utf16Length | src/components/InputField.tsx:290 | `value.length` counts UTF-16 code units: one per character of the Basic Multilingual Plane, two per character above it, so between `|s|` and `2|s|` |
| Text.Utf16LengthConcat | src/components/InputField.tsx:290 | the code-unit length of a concatenation is the sum of the parts' lengths |
| Text.Trim | src/components/InputField.tsx:59 | `trim()` removes exactly the surrounding whitespace: the value is the result with only whitespace before and after it, and the result neither starts nor ends with whitespace |
| Text.TrimStart | src/components/InputField.tsx:59 | dropping the leading whitespace keeps a suffix that does not start with whitespace |
| Text.TrimStartDropsWhitespace | src/components/InputField.tsx:59 | everything dropped before that suffix is whitespace |
| Text.TrimEnd | src/components/InputField.tsx:59 | dropping the trailing whitespace keeps a prefix that does not end with whitespace |
| Text.TrimEndDropsWhitespace | src/components/InputField.tsx:59 | everything dropped after that prefix is whitespace |
| Text.TrimEmptyIffBlank | src/components/InputField.tsx:59 | `value.trim()` is empty exactly when every character is ECMAScript whitespace, including for the empty string |
| Text.NatToDecimal | src/components/DataTable.tsx:164 | the `toString` of a non-negative integer is a non-empty string of digits with no leading zero |
| Text.DecimalRoundTrip | src/components/DataTable.tsx:164-165 | the decimal text of a number used by the search reads back as that number |
| Text.StrLess | src/components/DataTable.tsx:183 | string `<`: nothing is below the empty string, and a proper prefix is below the string it starts |
| Text.StrLessTransitive | src/components/DataTable.tsx:182-187 | the string `<` used by the comparator is transitive |
| Text.StrLessTotal | src/components/DataTable.tsx:182-187 | two different strings are ordered one way or the other by `<` |
| TableQuery.StatusTextInjective | src/components/DataTable.tsx:167 | different statuses have different texts, so the status filter selects one status |
| TableQuery.SortedDistinct | src/components/DataTable.tsx:151-159 | `Array.from(new Set(...)).sort()` gives a strictly increasing list holding exactly the input's values |
| TableQuery.StrictlyIncreasingUnique | src/components/DataTable.tsx:151-159 | two strictly increasing lists with the same values are equal, so the option lists are determined by the value sets |
| TableQuery.Departments | src/components/DataTable.tsx:151-154 | the department options are strictly increasing and are exactly the departments occurring in the data |
| TableQuery.Statuses | src/components/DataTable.tsx:156-159 | the status options are strictly increasing and are exactly the status texts occurring in the data |
| TableQuery.FieldTexts | src/components/DataTable.tsx:163-164 | `Object.values(item)` as text: eight strings, among them each field's text |
| TableQuery.MatchesSearch | src/components/DataTable.tsx:163-165 | an empty search term matches every record, because every string includes "" |
| TableQuery.Matches | src/components/DataTable.tsx:162-169 | with no search, department or status every record matches; a record that matches a chosen department or status has that department or status |
| TableQuery.Filter | src/components/DataTable.tsx:161-171 | the filtered list is an order-preserving subsequence of the data and holds exactly the records that pass search, department and status together |
| TableQuery.FilterCounts | src/components/DataTable.tsx:161-171 | each matching record is kept as many times as it occurs, and each other record never |
| TableQuery.FilterNoCriteria | src/components/DataTable.tsx:163-169 | with no search, department or status every record is kept, in order |
| TableQuery.FilterConcat | src/components/DataTable.tsx:162-170 | filtering a concatenation is concatenating the filtered parts |
| TableQuery.FilterNoStatus | src/components/DataTable.tsx:167 | a status filter that no record has leaves nothing |
| TableQuery.FilterAround | src/components/DataTable.tsx:162-170 | a single matching record among records that filter to nothing is all that is left |
| TableQuery.FilterNoInactive | src/components/DataTable.tsx:167 | a list without inactive records keeps nothing under the "Inactive" filter |
| TableQuery.FilterSingleInactive | src/components/DataTable.tsx:167 | when exactly one record is inactive, the "Inactive" filter leaves exactly that record |
| TableQuery.FilterIdempotent | src/components/DataTable.tsx:161-171 | filtering the filtered list again with the same inputs changes nothing |
| TableQuery.KeyOf | src/components/DataTable.tsx:175-181 | the comparator compares `id` and `salary` as numbers and every other field as a string with no ASCII upper-case letter |
| TableQuery.KeyLessAsymmetric | src/components/DataTable.tsx:183-188 | two keys are never below each other both ways |
| TableQuery.KeyLessTransitive | src/components/DataTable.tsx:174-186 | the key order (numbers numerically, lower-cased strings by `<`) is transitive |
| TableQuery.KeyLessTotal | src/components/DataTable.tsx:174-186 | two different keys are ordered one way or the other |
| TableQuery.Compare | src/components/DataTable.tsx:174-190 | the comparator returns -1, 0 or 1, and a negative result exactly when the first key is below the second (ascending) or above it (descending) |
| TableQuery.CompareConsistent | src/components/DataTable.tsx:173-191 | the comparator is antisymmetric, returns 0 exactly on equal keys, and is non-positive exactly when the keys are in the chosen order |
| TableQuery.InOrderTransitive | src/components/DataTable.tsx:182-188 | the chosen order, ascending or descending, is transitive |
| TableQuery.InOrderAntisymmetric | src/components/DataTable.tsx:182-188 | keys in order both ways are equal |
| TableQuery.Insert | src/components/DataTable.tsx:173-191 | inserting a record adds exactly that record to the multiset |
| TableQuery.InsertSorted | src/components/DataTable.tsx:173-191 | inserting into an ordered list keeps it ordered |
| TableQuery.InsertWithKey | src/components/DataTable.tsx:173-191 | among the records with one key, an inserted record with that key comes first and the others keep their order, so a record from earlier in the input stays ahead of its equals |
| TableQuery.SortBy | src/components/DataTable.tsx:173-191 | the sorted list is a permutation of the filtered list |
| TableQuery.SortByCorrect | src/components/DataTable.tsx:173-191 | the sorted list is a permutation, ordered by the key (non-decreasing for `asc`, non-increasing for `desc`), and records with equal keys keep their relative order in both directions |
| TableQuery.SortedStableUnique | src/components/DataTable.tsx:173-191 | two ordered lists that agree on the relative order of every key group are equal |
| TableQuery.StableSortUnique | src/components/DataTable.tsx:173-191 | any ordered, stable rearrangement of the filtered list is the sorted list |
| TableQuery.TotalPages | src/components/DataTable.tsx:198 | `ceil(len/n)`: the pages hold all records, the last page is non-empty, and there are no pages exactly when there are no records |
| TableQuery.Slice | src/components/DataTable.tsx:195 | `slice(start, end)` with bounds cut back to the length: `max(0, min(end, len) - min(start, len))` records, taken in order from `start` |
| TableQuery.Paginate | src/components/DataTable.tsx:193-196 | page `p` has `min(n, max(0, len-(p-1)*n))` records, taken in order from position `(p-1)*n` |
| TableQuery.PageExtendsPrefix | src/components/DataTable.tsx:193-196 | page `k` is the stretch of the list between the end of page `k-1` and the end of page `k` |
| TableQuery.PagesUpToPrefix | src/components/DataTable.tsx:193-196 | the first `k` pages together are the first `min(k*n, len)` records |
| TableQuery.PagesCoverAll | src/components/DataTable.tsx:193-198 | pages 1 to `totalPages` concatenate to the whole sorted list |
| TableQuery.LastPageSize | src/components/DataTable.tsx:193-198 | the last page holds `len mod n` records, or `n` when `n` divides `len` |
| TableQuery.ShowingFrom | src/components/DataTable.tsx:414 | the footer's X is one past the records on the earlier pages, at least 1 on any page |
| TableQuery.ShowingTo | src/components/DataTable.tsx:415 | the footer's Y is the end of the page or the record count, whichever is smaller |
| TableQuery.FirstRecordOnFirstPage | src/components/DataTable.tsx:414 | only page 1 starts at record 1 |
| TableQuery.FooterMatchesPage | src/components/DataTable.tsx:414-415 | on an existing page, `1 <= X <= Y <= len` and `Y-X+1` is the number of rows shown |
| TableQuery.StalePageIsEmpty | src/components/DataTable.tsx:193-198 | on a page past the last one no rows are shown and the footer's X exceeds its Y |
| TableQuery.PageButton | src/components/DataTable.tsx:443-452 | each of the first `min(5, totalPages)` buttons shows an existing page |
| TableQuery.PageWindow | src/components/DataTable.tsx:442-452 | the window has `min(5, totalPages)` buttons, consecutive and increasing, all within `[1, totalPages]` for any page number |
| TableQuery.PageWindowShowsCurrent | src/components/DataTable.tsx:442-452 | an existing page has a button, centred when it is away from both ends |
| DataTable.NextSort | src/components/DataTable.tsx:200-207 | a header click sorts on that column; on the current column it flips the order, on another column the order becomes ascending |
| DataTable.NextSortBehaviour | src/components/DataTable.tsx:200-207 | two clicks on the current column restore its order; two on another column leave it descending |
| DataTable.TableState.constructor | src/components/DataTable.tsx:142-149 | the initial state: no search or filters, sorted by name ascending, page 1 of 5 rows |
| DataTable.TableState.FilteredData | src/components/DataTable.tsx:161-171 | the filtered rows are an order-preserving subsequence of the data holding exactly the records that match the current search and filters |
| DataTable.TableState.SortedData | src/components/DataTable.tsx:173-191 | the sorted rows are a permutation of the filtered rows, ordered by the current column and direction |
| DataTable.TableState.PageCount | src/components/DataTable.tsx:198 | there are no pages exactly when no record passes the filters; otherwise just enough pages to hold every row |
| DataTable.TableState.PaginatedData | src/components/DataTable.tsx:193-196 | the page shows at most a page's worth of rows, and none exactly when the page number is past the page count |
| DataTable.TableState.Window | src/components/DataTable.tsx:442-452 | up to five page buttons, all existing pages, among them the current page when it exists |
| DataTable.TableState.FooterShown | src/components/DataTable.tsx:401-410 | the footer is rendered exactly when some record passes the filters |
| DataTable.TableState.PrevDisabled | src/components/DataTable.tsx:435 | the previous-page button is disabled exactly on the page whose footer starts at record 1 |
| DataTable.TableState.NextDisabled | src/components/DataTable.tsx:472 | where the next-page button is disabled the footer reaches the last row; past the last page it stays enabled |
| DataTable.TableState.SetSearchTerm | src/components/DataTable.tsx:280 | typing a search changes only the search term; the page number stays |
| DataTable.TableState.SelectDepartment | src/components/DataTable.tsx:288 | choosing a department changes only that filter; the page number stays |
| DataTable.TableState.SelectStatus | src/components/DataTable.tsx:299 | choosing a status changes only that filter; the page number stays |
| DataTable.TableState.HandleSort | src/components/DataTable.tsx:200-207 | the sort column and order become `NextSort` of the old ones; everything else stays |
| DataTable.TableState.ClearFilters | src/components/DataTable.tsx:248-253 | search, department and status become empty and the page 1; sort and page size stay; every record passes the filter again |
| DataTable.TableState.ChangePageSize | src/components/DataTable.tsx:417-422 | the page size becomes the chosen option and the page 1; the rest stays |
| DataTable.TableState.PrevPage | src/components/DataTable.tsx:433-435 | the page goes down by one, except on page 1, where the button is disabled |
| DataTable.TableState.NextPage | src/components/DataTable.tsx:470-472 | the page goes up by one, except when it equals the page count, where the button is disabled |
| DataTable.TableState.GoToPage | src/components/DataTable.tsx:455-457 | a page button selects its page, which always exists |
| MockEmployees.MockPages | src/components/DataTable.tsx:15-136 | the twelve records at five per page make three pages of 5, 5 and 2 rows, page 4 is empty, and the pages make up the whole list |
| MockEmployees.MockDepartmentListIncreasing | src/components/DataTable.tsx:151-154 | the expected department list is strictly increasing |
| MockEmployees.MockDepartmentOf | src/components/DataTable.tsx:15-136 | every record's department is one of the six listed |
| MockEmployees.MockDepartmentValues | src/components/DataTable.tsx:151-154 | a list holding exactly the records' departments holds exactly the six listed |
| MockEmployees.MockDepartments | src/components/DataTable.tsx:151-154 | the department options are Engineering, Finance, HR, IT, Marketing, Sales |
| MockEmployees.MockDepartmentWitness | src/components/DataTable.tsx:15-136 | each of the six listed departments belongs to some record |
| MockEmployees.MockStatusListIncreasing | src/components/DataTable.tsx:156-159 | the expected status list is strictly increasing |
| MockEmployees.StatusListed | src/components/DataTable.tsx:156-159 | every status text is one of the three listed |
| MockEmployees.MockStatusWitness | src/components/DataTable.tsx:15-136 | each of the three listed statuses belongs to some record |
| MockEmployees.MockStatusValues | src/components/DataTable.tsx:156-159 | a list holding exactly the records' status texts holds exactly the three listed |
| MockEmployees.MockStatuses | src/components/DataTable.tsx:156-159 | the status options are Active, Inactive, On Leave |
| MockEmployees.MockInactive | src/components/DataTable.tsx:161-171 | the "Inactive" filter leaves only the sixth record |
| TableScenarios.StalePageAfterFilter | src/components/DataTable.tsx:280-299 | going to page 3 of 3 and then filtering down to one record leaves page 3 selected with one page in total and no rows shown |
| TableScenarios.MockDataAllowsStalePage | src/components/DataTable.tsx:15-136 | the demonstration records meet that scenario's requirements |
| Validation.RequiredErrors | src/components/InputField.tsx:59-61 | the required check reports one message, "<label> is required", exactly when the field is required and the value is all whitespace |
| Validation.Errors | src/components/InputField.tsx:56-67 | the error list starts with the required check's result, has at most one entry more than there are rules, and an empty value gets only the required check |
| Validation.RunRules | src/components/InputField.tsx:63-67 | the rule loop collects the failing rules' messages in rule-list order, and none for an empty value |
| Validation.ValidateInput | src/components/InputField.tsx:56-71 | the collected errors are `Errors` of the inputs, and the field is valid exactly when there are none |
| Validation.FailingMessagesAppend | src/components/InputField.tsx:63-67 | rule messages come in rule-list order: running two lists of rules is running one after the other |
| Validation.FailingMessages | src/components/InputField.tsx:63-67 | no more messages than rules |
| Validation.FailingMessagesExact | src/components/InputField.tsx:63-67 | at most one message per rule; none exactly when every rule passes; a message appears exactly when a rule with it fails |
| Validation.RequiredComesFirst | src/components/InputField.tsx:59-61 | a required blank value's first error is "<label> is required" |
| Validation.EmptyValueErrors | src/components/InputField.tsx:59-67 | an empty value has only the required error, or none when not required, whatever the rules |
| Validation.ErrorsBound | src/components/InputField.tsx:59-67 | there are at most one more errors than rules, and after the required error come exactly the failing rules' messages |
| Validation.FailingMessagesOfOne | src/components/InputField.tsx:63-67 | a single rule contributes its message exactly when it fails |
| Validation.ErrorsOfFilledValue | src/components/InputField.tsx:59-67 | a value that starts with a non-space character gets only rule messages |
| Validation.FailingMessagesOfFour | src/components/InputField.tsx:63-67 | four rules contribute their messages in order |
| Validation.PasswordMessages | src/components/InputField.tsx:288-305 | the password messages are: fewer than 8 UTF-16 code units, no upper-case letter, no lower-case letter, no digit, in that order |
| Validation.PasswordAbc | src/components/InputField.tsx:288-305 | "abc" gets exactly the length, upper-case and digit messages, in that order |
| Validation.PasswordAbcdefg1 | src/components/InputField.tsx:288-305 | "Abcdefg1" gets no message |
| Validation.Utf16LengthOfMix | src/components/InputField.tsx:290 | a value of Basic Multilingual Plane characters followed by astral ones has one code unit per former and two per latter |
| Validation.PasswordAstral | src/components/InputField.tsx:289-292 | "Ab1" and three emoji (six characters, nine code units) passes every password rule |
| Validation.BlankErrors | src/components/InputField.tsx:59-67 | a required value of whitespace that is not empty gets the required message followed by every failing rule's message |
| Validation.ShortLowerMessages | src/components/InputField.tsx:288-305 | a short value with a lower-case letter but no upper-case letter and no digit gets the length, upper-case and digit messages, in that order |
| Validation.BlankPasswordMessages | src/components/InputField.tsx:288-305 | a short value of whitespace only breaks all four password rules |
| Validation.BlankPasswordErrors | src/components/InputField.tsx:59-67 | a required password field holding a short, non-empty run of whitespace gets the required message and then all four rule messages |
| Validation.PasswordBlank | src/components/InputField.tsx:288-305 | a required password of three spaces gets the required message and then all four rule messages |
| Validation.ConfirmPasswordRules | src/components/InputField.tsx:307-312 | one rule, "Passwords do not match", passing exactly on the current password |
| Validation.EmailErrors | src/components/InputField.tsx:281-286 | the e-mail field's rule list adds the e-mail message after the required check, exactly for a non-empty value the pattern rejects |
| Validation.PhoneErrors | src/components/InputField.tsx:314-319 | the optional phone field reports the phone message exactly for a non-empty value the pattern rejects, and nothing else |
| Validation.ConfirmPasswordErrors | src/components/InputField.tsx:307-312 | a non-blank confirmation has no error exactly when it equals the password, and otherwise only "Passwords do not match" |
| Validation.EmailPattern | src/components/InputField.tsx:283 | an accepted e-mail address has at least five characters |
| Validation.EmailPatternToShape | src/components/InputField.tsx:281-286 | a value matching the e-mail pattern has no whitespace, exactly one `@`, not in first place, and a later `.` with at least one character between them and after it |
| Validation.EmailShapeToPattern | src/components/InputField.tsx:281-286 | every value of that shape matches the e-mail pattern |
| Validation.EmailPatternIffShape | src/components/InputField.tsx:281-286 | the e-mail pattern holds exactly for values of that shape |
| Validation.PhonePattern | src/components/InputField.tsx:316 | an accepted phone number has at least ten characters |
| Validation.PhonePatternIffShape | src/components/InputField.tsx:316 | the phone pattern holds exactly for values made of digits, whitespace, `-`, `(` and `)`, with an optional leading `+`, and at least ten characters after it |
| Validation.PhonePatternFacts | src/components/InputField.tsx:314-319 | an accepted phone number has at least 10 characters and `+` only in front; "+1 (555) 123-4567" is accepted and "555-1234" is not |
| Validation.GetStatusIcon | src/components/InputField.tsx:98-110 | no icon while untouched or empty; the error icon exactly when touched, non-empty and with errors; the success icon only for a valid field without errors |
| Validation.GetBorderColor | src/components/InputField.tsx:112-126 | red exactly when touched with errors; green exactly when touched, valid and without errors; the focus colour only when focused |
| Validation.StatusIconConsistent | src/components/InputField.tsx:98-110 | no icon exactly when untouched or empty; otherwise the error icon exactly when there are errors, so the trailing `null` branch is never taken |
| Validation.BorderColorConsistent | src/components/InputField.tsx:112-126 | a touched field's border is red or green by its errors alone; an untouched one shows focus |
| Validation.GetInputType | src/components/InputField.tsx:91-96 | a password field is shown as text exactly when revealed; other types are kept |
| InputField.FieldState.constructor | src/components/InputField.tsx:38-54 | a new field holds its initial value and that value's errors, and is untouched, unfocused and hidden |
| InputField.FieldState.Revalidate | src/components/InputField.tsx:52-54 | the stored errors and validity become those of the current value and rules |
| InputField.FieldState.HandleChange | src/components/InputField.tsx:73-80 | an edit stores the value, marks the field touched and revalidates |
| InputField.FieldState.SyncControlledValue | src/components/InputField.tsx:46-50 | a new value from the parent is stored and revalidated without touching the field |
| InputField.FieldState.UpdateRules | src/components/InputField.tsx:52-54 | new rules from the parent revalidate the unchanged value |
| InputField.FieldState.HandleFocus | src/components/InputField.tsx:82-84 | focus sets the focus flag and changes nothing else |
| InputField.FieldState.HandleBlur | src/components/InputField.tsx:86-89 | leaving the field clears the focus flag and marks it touched |
| InputField.FieldState.TogglePassword | src/components/InputField.tsx:179 | the reveal button flips the reveal flag, switches a password field's rendered type, and leaves the errors alone |
| InputField.FieldState.ShownInputType | src/components/InputField.tsx:171 | the rendered `type` is text exactly while a password field is revealed, password while it is hidden, and the declared type for other fields |
| InputField.FieldState.StatusIcon | src/components/InputField.tsx:98-110 | the icon is none until touched and non-empty, then error or success by the current value's errors |
| InputField.FieldState.Border | src/components/InputField.tsx:112-126 | the border shows focus until touched, then error or success by the current value's errors |
| InputField.RegistrationForm.constructor | src/components/InputField.tsx:235-245 | every form value starts empty |
| InputField.RegistrationForm.ConfirmRules | src/components/InputField.tsx:307-312 | the confirm-password field has one rule, "Passwords do not match", accepting exactly the form's current password |
| InputField.RegistrationForm.HandleInputChange | src/components/InputField.tsx:250-252 | a change sets that one form value and leaves the others alone |

## Left out

- Rendering: the JSX, Tailwind classes, icons, animation delays, `getSortIcon` and `getStatusBadge` are presentation only. The status and border functions keep only their enumerated outcome.
- `formatSalary` and `formatDate` depend on `Intl.NumberFormat` and `Date` locale formatting, which are outside the model.
- `handleSubmit` in the demonstration form is driven by a promise and timers. Its delayed reset of the form is not modelled.
- `src/App.tsx`, a menu switching between the two components, is not part of this model.
- React's effect and re-render scheduling is not modelled. Each handler and the recomputation it triggers is one atomic step.
- `Text.ToLower` lower-cases ASCII letters only; JavaScript's `toLowerCase` also maps other Unicode letters.
- `Text.StrLess` compares characters. JavaScript compares UTF-16 code units, which orders the same way inside the Basic Multilingual Plane only.
- `TableQuery.Employee`: `id` and `salary` are unbounded natural numbers. Negative or fractional values, whose `toString` differs, are not modelled.
- `Text.NatToDecimal` always writes plain decimal digits. JavaScript's `toString` writes numbers of 1e21 and above in exponent form ("1e+21"), and numbers above 2^53 are not held exactly as JavaScript numbers; neither is modelled.
- The regular expressions of the demonstration rules are written as predicates for those patterns. A general regular-expression engine is not modelled.
- The field's `onChange` callback to its parent is not modelled inside `FieldState`. The parent's side of it is `RegistrationForm.HandleInputChange`.
- The character counter (`maxLength`), the `disabled` flag, `rows`, placeholder and helper text have no effect on validation and are not modelled.
- `DataTable.TableState.ChangePageSize`, `PrevPage`, `NextPage` and `GoToPage` require the footer to be shown, as the controls exist only then. The page-size value is one of the four options, as the dropdown allows no other.
- `InputField.FieldState.Revalidate`, `HandleChange`, `SyncControlledValue` and `UpdateRules` state the new validation state but not the intermediate render before the validation effect runs.
