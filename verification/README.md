# Locker-loan registry — a Dafny model

The page `js/script.js` keeps a list of locker loans (`peminjaman`): who
borrowed which locker (`lokerNomor`), their name (`peminjamNama`), the day it
was borrowed (`tanggalPinjam`, stamped by `getTodayDate`), the due date typed
in the form (`tanggalJatuhTempo`) and whether the locker came back
(`isReturned`). Its event handlers create a loan from the form, flip a loan's
returned flag, delete a loan, delete every loan, and cycle a status filter
(all → pending → returned → all). After every change the whole list is written
to local storage under `peminjaman_loker`, and the table is redrawn.

The model is split the way the page's logic is:

- `wrappers.dfy` (module `Wrappers`): the `Option` type shared by the date
  parser and the storage read.
- `text.dfy` (module `Text`): the two string built-ins the form handler
  relies on, `trim` and `toUpperCase`, and the locker-number normalisation
  built from them. `trim` is modelled as the ECMAScript TrimString operation
  describes it: find the first and the last character that is not
  whitespace, and take the slice between them.
- `dates.dfy` (module `Dates`): `getTodayDate`, the `YYYY-MM-DD` borrow date,
  with a parser that reads it back.
- `jsarray.dfy` (module `JsArray`): `Array.prototype.filter`, `some`
  (`SomeMatches`) and `findIndex` with a pure callback.
- `loans.dfy` (module `Loans`): the loan record, the pure meaning of each
  handler (`Submission`, `Toggled`, `Deleted`, `View`, `NextFilter`) and the
  lemmas about them: validation, the busy-locker rule, the appended record,
  "at most one unreturned loan per locker", the toggle frame and its
  involution, order-preserving deletion and views.
- `registry.dfy` (module `Registry`): class `LoanRegistry` holding the page
  state. `peminjaman` is a `seq<Loan>` field. `currentFilter` is the filter
  button's state. `shown` is the list the table shows. The ghost field
  `stored` is the local-storage copy, and the ghost counter `saves` counts
  the writes to it. Each handler is a method whose `ensures` ties the new
  state to the pure function of `loans.dfy`.

Behaviour of the code that the model keeps on purpose:

- Toggle and delete with an unknown id report nothing. Toggle then writes
  nothing and redraws nothing. Delete still writes and redraws
  (`DeletePeminjaman` always increments `saves`).
- Ids come from `Date.now()` and are never checked for uniqueness. Toggle
  acts on the first loan with the id; delete removes every loan with it.
  `SubmissionKeepsUniqueIds` states what a fresh id preserves.
- The due date is checked for emptiness only. It is not trimmed, so a due
  date of one space is accepted.
- Every redraw after a create, toggle, delete or delete-all is
  `renderPeminjaman()` with its default filter `'all'`. It does not use
  `currentFilter`. So after a change the table lists every loan even while the
  filter button is on "pending" or "returned". The method contracts state
  `shown == peminjaman` for those handlers.
- Only the create handler checks for an unreturned loan on the locker.
  Undoing a return ("Batal Kembalikan") can leave two unreturned loans on one
  locker. "At most one unreturned loan per locker" is kept by create, delete,
  delete-all and toggles that mark a loan returned, and
  `ToggledCanBreakOnePending` gives a two-loan example where undoing a return
  breaks it.
- Toggle and delete have no not-found outcome. The page has no fallback when
  the stored text does not parse. The model follows the code in both.

## Model

| member | source | states |
|---|---|---|
| `Text.LeadingEnd` | js/script.js:117-118 | where the leading whitespace stops: every character before it is whitespace, and the character there is not |
| `Text.TrailingStart` | js/script.js:117-118 | where the trailing whitespace starts: every character from there on is whitespace, and the one before it is not |
| `Text.Trim` | js/script.js:117-118 | the result is a slice of the input with only whitespace before and after it; it neither starts nor ends with whitespace, and is empty exactly when the input is all whitespace |
| `Text.TrimOfTrimmed` | js/script.js:117-118 | a string without leading or trailing whitespace is its own trim |
| `Text.TrimIsTrimmed` | js/script.js:117-118 | the trim is trimmed, and trimming is idempotent |
| `Text.UpperChar` | js/script.js:117 | upper-casing a character yields one or two characters; below U+0080 only 'a'..'z' change, to 'A'..'Z', while digits, punctuation and 'A'..'Z' stay; from U+0100 up nothing changes; no ASCII lower-case letter is ever produced |
| `Text.ToUpper` | js/script.js:117 | the upper-cased string is at least as long as the input and at most twice as long, and holds no ASCII lower-case letter |
| `Text.ToUpperSingle` | js/script.js:117 | upper-casing a one-character string is `UpperChar` of that character |
| `Text.ToUpperAppend` | js/script.js:117 | upper-casing a concatenation is the concatenation of the upper-cased parts, so with `ToUpperSingle` the string is mapped character by character |
| `Text.ToUpperAscii` | js/script.js:117 | on ASCII text the length is kept and each character is its ASCII case fold: only 'a'..'z' change |
| `Text.UpperCharIgnoresAsciiCase` | js/script.js:117 | a character and its other ASCII case upper-case to the same thing |
| `Text.ToUpperIgnoresAsciiCase` | js/script.js:117 | strings that differ only in the case of ASCII letters upper-case to the same string |
| `Text.TrimIgnoresAsciiCase` | js/script.js:117 | trimming such strings gives results that again differ only in ASCII letter case |
| `Text.ToUpperIdempotent` | js/script.js:117 | upper-casing twice equals upper-casing once |
| `Text.ToUpperKeepsTrimmed` | js/script.js:117 | upper-casing a trimmed string leaves it trimmed |
| `Text.NormaliseLocker` | js/script.js:117-121 | `trim().toUpperCase()` of the locker input is empty exactly when the input is all whitespace, neither starts nor ends with whitespace, and holds no ASCII lower-case letter |
| `Text.NormaliseLockerIgnoresAsciiCase` | js/script.js:117 | locker inputs that differ only in ASCII letter case, such as "a1" and "A1", normalise to the same locker number |
| `Text.NormaliseLockerAscii` | js/script.js:117 | for ASCII input the locker number is the trimmed input with 'a'..'z' upper-cased and every other character kept, so "A1" and "A2" stay different lockers |
| `Text.NormaliseLockerIdempotent` | js/script.js:117-129 | normalising twice is normalising once: a stored locker number is already normalised, so the busy check compares normal forms |
| `Dates.Decimal` | js/script.js:18-21 | `String(n)` is a non-empty run of digits without a leading zero |
| `Dates.DecimalRoundTrip` | js/script.js:18-21 | reading the digits of `String(n)` gives back `n` |
| `Dates.YearString` | js/script.js:18-21 | `${year}` is a run of digits, or a minus sign followed by digits for a negative year, with no leading zero |
| `Dates.YearRoundTrip` | js/script.js:18-21 | the written year, minus sign included, reads back as the year |
| `Dates.Pad2` | js/script.js:19-20 | `padStart(2, '0')` of a number below 100 is exactly two digits |
| `Dates.Pad2RoundTrip` | js/script.js:19-20 | the padded month or day reads back as the number |
| `Dates.FormatDate` | js/script.js:16-22 | the date ends in `-MM-DD`: dashes three and six characters from the end |
| `Dates.FormatDateRoundTrip` | js/script.js:16-22 | parsing the date gives back the year, the month (`getMonth() + 1`) and the day |
| `Dates.FormatDateShape` | js/script.js:16-22 | for a four-digit year the date is ten characters, `YYYY-MM-DD` |
| `JsArray.Filter` | js/script.js:64-66 | an element is kept exactly when it was in the input and passes the callback; never longer than the input |
| `JsArray.FilterIsSubsequence` | js/script.js:64-66 | `filter` keeps the original order |
| `JsArray.FilterKeepsAll` | js/script.js:50 | when every element passes, `filter` gives back the same sequence |
| `JsArray.FilterPartition` | js/script.js:63-66 | filtering by a predicate and by its negation splits the multiset and the length |
| `JsArray.SomeMatches` | js/script.js:127-129 | `some` is true exactly when an element passes |
| `JsArray.FindIndex` | js/script.js:40-41 | `findIndex` is -1 exactly when no element passes, otherwise the first passing index |
| `JsArray.FindIndexAgrees` | js/script.js:40 | two sequences on which the callback agrees position by position have the same `findIndex` |
| `Loans.IsLockerPending` | js/script.js:127-129 | the busy check is true exactly when some unreturned loan has this locker number |
| `Loans.Submission` | js/script.js:117-147 | the handler's outcome: a refusal as busy names a non-empty locker that an unreturned loan holds; an added loan's locker is held by no unreturned loan, and the loan has id `now`, borrow date `today`, the non-empty due date as typed, `isReturned == false`, and a non-empty trimmed locker number and name |
| `Loans.AfterSubmission` | js/script.js:147-147 | the old loans stay in front, unchanged; an added loan is pushed as the one new last element, and a refusal changes nothing |
| `Loans.SubmissionMissingField` | js/script.js:117-124 | create is refused as incomplete exactly when the locker or name is all whitespace or the due date is empty; the list is unchanged |
| `Loans.SubmissionLockerBusy` | js/script.js:126-134 | a complete create is refused as busy exactly when an unreturned loan holds the normalised locker; returned loans do not block; the list is unchanged |
| `Loans.SubmissionAdded` | js/script.js:136-147 | otherwise exactly one loan is appended after the unchanged old ones, with the given id, the normalised locker, the trimmed name, today's date, the raw due date and `isReturned == false` |
| `Loans.SubmissionIgnoresLockerCase` | js/script.js:117-134 | the create outcome does not depend on the letter case of the locker input: a locker busy as "A1" is busy as "a1" |
| `Loans.SubmissionKeepsOnePending` | js/script.js:126-147 | create preserves "at most one unreturned loan per locker" |
| `Loans.SubmissionKeepsUniqueIds` | js/script.js:136-147 | create with a `Date.now()` value not yet used keeps ids distinct |
| `Loans.IndexOfId` | js/script.js:40-40 | `findIndex(item => item.id === id)`: -1 exactly when no loan has the id, otherwise the first loan with it |
| `Loans.Toggled` | js/script.js:39-42 | same length, and each loan keeps every field except possibly `isReturned`; on a list with at most one unreturned loan per locker whose loans with this id are all unreturned, the rule still holds afterwards |
| `Loans.ToggledFrame` | js/script.js:39-46 | toggle flips `isReturned` of the first loan with the id only; length, order and all other loans and fields are unchanged; an unknown id changes nothing |
| `Loans.ToggledTwice` | js/script.js:39-46 | toggling the same id twice restores the list |
| `Loans.ToggledToReturnedKeepsOnePending` | js/script.js:39-46 | marking an unreturned loan returned preserves the one-pending rule |
| `Loans.ToggledCanBreakOnePending` | js/script.js:39-46 | undoing a return can produce two unreturned loans on one locker |
| `Loans.Deleted` | js/script.js:49-50 | the remaining loans are exactly the old ones whose id differs |
| `Loans.DeletedOrder` | js/script.js:49-50 | delete keeps the survivors in their order, removes every loan with the id, and changes nothing for an unknown id |
| `Loans.FilterKeepsOnePending` | js/script.js:49-50 | any filter of the list preserves the one-pending rule |
| `Loans.DeletedKeepsOnePending` | js/script.js:49-50 | delete preserves the one-pending rule |
| `Loans.View` | js/script.js:60-67 | the listed loans are exactly the loans of the list that match the filter ("pending": unreturned, "returned": returned, anything else: all), never more than the list |
| `Loans.ViewsSplitLoans` | js/script.js:57-67 | the "pending" and "returned" views are order-preserving, hold exactly the unreturned and returned loans, and together hold every loan once; any other filter shows the list itself |
| `Loans.NextFilter` | js/script.js:167-178 | the next filter is always "all", "pending" or "returned"; the order of the cycle is stated by `NextFilterCycle` |
| `Loans.NextFilterCycle` | js/script.js:167-178 | the button goes all → pending → returned → all; three presses return to the start; an unknown value goes to "all"; a press always changes the filter |
| `Loans.ReborrowAfterReturn` | js/script.js:113-147 | a locker is refused while its loan is out and accepted as a new loan once that loan is toggled to returned, the old loan staying in the list |
| `Registry.LoanRegistry.Load` | js/script.js:25-31 | start-up takes the saved loans, or none when the key is empty; the filter is "all" and the table lists everything |
| `Registry.LoanRegistry.Save` | js/script.js:34-36 | a write replaces the stored copy with the whole list |
| `Registry.LoanRegistry.SaveAndRenderAll` | js/script.js:148-149 | the `savePeminjaman(); renderPeminjaman();` tail of create (and of toggle, delete and delete-all): a write of the whole list, after which the table lists every loan whatever `currentFilter` says; the loans and the filter are unchanged |
| `Registry.LoanRegistry.Render` | js/script.js:57-67 | the table lists `View(peminjaman, filter)` |
| `Registry.LoanRegistry.Submit` | js/script.js:113-150 | the outcome and the new list are `Submission` and `AfterSubmission` of the old list; only an added loan is written and redrawn; storage equals memory |
| `Registry.LoanRegistry.ToggleReturnStatus` | js/script.js:39-46 | the new list is `Toggled` of the old one; written and redrawn only when the id is found |
| `Registry.LoanRegistry.DeletePeminjaman` | js/script.js:49-53 | the new list is `Deleted` of the old one; always written and redrawn |
| `Registry.LoanRegistry.DeleteAll` | js/script.js:158-164 | list, stored copy and table are all empty after one write |
| `Registry.LoanRegistry.ClickFilter` | js/script.js:167-180 | the filter advances by `NextFilter` and the table lists the matching view; loans and storage unchanged |

## Left out

- DOM work: building rows, cells and buttons (js/script.js:58, 69-109), resetting the form (152-154), the filter button's label (171, 174, 177) and the `addEventListener` wiring. It is presentation only. The table is modelled as the list of loans it shows (`shown`).
- `alert` and `confirm` are host dialogs. The two alerts of the submit handler become the `MissingField` and `LockerBusy` outcomes. Only the confirmed branch of delete-all is modelled.
- `localStorage`, `JSON.stringify` and `JSON.parse` are host I/O. Storage is the ghost field `stored`, and the serialised text and its round trip are not modelled. `Registry.LoanRegistry.Load` takes the already-decoded list. Text that does not parse makes the page throw, and that case is not modelled.
- `Registry.LoanRegistry.Load`: an absent key and a stored empty list both give an empty `stored`. The model does not tell the two apart.
- `Date.now()` and `new Date()` read the clock. They are the parameters `now`, `year`, `monthIndex` and `day` of `Submit`. `Submit` requires `0 <= monthIndex <= 11` and `1 <= day <= 31`, which is what `getMonth()` and `getDate()` return.
- `Text.UpperChar`: follows `toUpperCase` for Basic Latin and Latin-1 Supplement only, including 'ß' to "SS", 'µ' to 'Μ' and 'ÿ' to 'Ÿ'. Characters from U+0100 upward are left unchanged, whereas JavaScript applies the full Unicode case mapping to them. The contract pins the result below U+0080 and from U+0100 up; for U+0080..U+00FF only the definition states the mapping.
- `Text.ToUpper`: inherits that limit from `UpperChar`.
- `Text.NormaliseLockerIgnoresAsciiCase`: the case-insensitivity lemmas speak of ASCII letters only. `UpperChar` also maps the Latin-1 lower-case letters such as 'é' to 'É', but no lemma relates the two cases of those.
- JavaScript strings are UTF-16 code units, while Dafny's `char` is a Unicode scalar value. A character outside the Basic Multilingual Plane counts as one character here. None of the whitespace or case rules above depend on that difference.
- Loans are values, not objects. Flipping `isReturned` in place is modelled as replacing the record at that index. Other references to the record objects do exist: the filtered arrays of one render, and each row's toggle and delete click handlers (js/script.js:100, 107), which hold their `item` until the next redraw. Those handlers read only `item.id`, and nothing ever changes an id, so nothing observable depends on object identity.
- `id` is an `int`. The page compares ids with `===` on numbers. Loaded records are not checked for well-formedness, and neither is anything else the page reads back.
