# Table reservations of a restaurant site, modelled in Dafny

This project models the table-reservation logic of a Django restaurant web
application. It covers:

- the admission check of the reservation form (`ReservationForm.clean`): a
  booking in the past is refused, and so is one that clashes with the
  table's existing bookings on that date;
- the booking view. It runs the form check, then the exact-slot check
  `Reservation.is_table_available`, then the capacity check, and only then
  saves a new reservation;
- the status views: confirm, the status update and cancel-as-delete;
- the small field validators of the content forms and the user forms.

Every operation is a pure function. The stored data is a `Store` of two
sequences, tables and reservations. Each ORM query is a filter over that
sequence (`Where`). A view returns `Result<Store, Error>`, so a refused
request leaves the stored data unchanged by construction. A time of day is
a `Minute` (0..1439) and a date is a day number. An instant is
`date * 1440 + minute`. The current moment is a parameter.

Files, one module each:

- `wrappers.dfy`: `Option` and `Result`.
- `text.dfy`: the Python string operations the validators use: `split()`,
  `lower()`, `isdigit()` and `endswith()`.
- `models.dfy`: tables, reservations, status choices, defaults,
  `is_table_available`, and the store invariants.
- `reservation_form.dfy`: `ReservationForm.clean` and its properties.
- `content_forms.dfy`: the banned-word and image validators of the
  restaurant content forms.
- `user_forms.dfy`: the registration and profile validators.
- `views.dfy`: booking, confirming, the status update and cancelling.

## What the code does, as opposed to what it appears to intend

The model follows the code, including where the code does less than its own
comments and messages say. Each point below is proved in the model:

- **No buffer between bookings.** The comment at restaurant/forms.py line 87
  says a new booking must not start within an hour after the previous one,
  and the error message repeats it. The test is plain overlap,
  `start + 60 > proposed start`. So a booking that starts exactly when
  another ends is accepted. For example, with table 3 booked at 18:00, a
  request for 19:00 is saved, not refused.
  See `BackToBackAccepted` and `ExampleBackToBack`.
- **The forward window wraps at midnight.** Its end is
  `(start + 60 min).time()`. From 23:00 on, the window `[start, end)` is
  empty. The form then refuses only bookings that start in the hour before
  the request. A same-minute clash is caught only by `is_table_available`.
  A clash at a different minute (23:10 against 23:20) is saved.
  See `LateOverlappingBookingSaved`.
- **Only the same date is queried.** A booking at 00:10 is saved even when
  the previous day's 23:30 booking is still running.
- **Status is ignored.** Neither query filters on `status` or `is_active`,
  so a canceled booking still blocks its hour. Neither query excludes the
  form's own instance either: re-validating an unchanged stored booking
  refuses it.
- **Confirming never works.** The confirm view sets the status to
  `"confirmed"`, which is not one of the choices. It then calls
  `is_table_available`, which finds the reservation itself. So the view
  never saves anything.
- **`Canceled` is not terminal.** The status update writes any choice
  unconditionally. The only exception is the confirm choice, which is
  accepted only when the current status is `"Reserved"`. The confirm
  choice's first letter is the Cyrillic `С` (U+0421), so posting the Latin
  `"Confirm"` is silently ignored.
- **Cancelling sets the table `"available"`** even when other bookings of that
  table remain.
- **The description check reads only the first word.** The `return` of
  `clean_description` sits inside its loop, so only the first word is
  checked against the banned words. A description with no word at all
  leaves the loop without returning, so its cleaned value becomes `None`.
- **The avatar check never runs.** `clean_avatar` reads the key `"image"`,
  which the registration form does not have. It always returns `None`.
- **The password check is dead code.** The registration form defines `clean`
  twice, and Python keeps only the second definition. So mismatched passwords
  are never refused.
- **Profile image refusals crash.** `UserUpdateForm.clean_image` raises the
  `ValidationError` of the REST framework (imported at users/forms.py line 4),
  not Django's. Django's field cleaning does not catch it. So an oversized
  file, or a name that does not end in "png" or "jpg", ends the request with
  an uncaught exception instead of a form error, just like a missing file.
- **Anonymous bookings crash.** The booking view has no login requirement.
  After all three checks pass, it assigns `request.user` to the `owner`
  foreign key. For an anonymous visitor that raises an uncaught
  `ValueError`, and nothing is saved.

`CleanImageUnguarded` models two methods whose text is identical:
`RestaurantForm.clean_image` (restaurant/forms.py, lines 192-206) and
`EmployeeForm.clean_image` (restaurant/forms.py, lines 287-301). Django calls
`clean_<field>` only for fields of the form. The `Restaurant` model has no
`image` field, so the first of these methods is never invoked.

## Model

| member | source | states |
|---|---|---|
| `RestaurantModels.ChoiceFromLiteral` | restaurant/models.py:32-36 | a posted string names a status iff it is one of the three choice keys, compared exactly; the status found spells back to that string and is never "confirmed" |
| `RestaurantModels.ChoiceRoundTrip` | restaurant/models.py:32-36 | every status except "confirmed" is a choice and reads back as itself; "confirmed" reads back as no choice |
| `RestaurantModels.LatinConfirmIsNoChoice` | restaurant/models.py:33 | the Latin spelling "Confirm" is not a choice, because the stored key starts with the Cyrillic letter |
| `RestaurantModels.NewTable` | restaurant/models.py:14-18 | a table created with defaults is "available", seats 1, and has number "1" |
| `RestaurantModels.NewReservation` | restaurant/models.py:45-54 | a new reservation has no owner and no creation time, is active, has status "Reserved", and keeps the given table, date, time, guests and contact fields |
| `RestaurantModels.IsTableAvailable` | restaurant/models.py:59-60 | the table is available iff no stored row has the same table, date and exact time |
| `RestaurantModels.StoredReservationNeverAvailable` | restaurant/models.py:60 | the query does not exclude the row itself: a stored reservation never finds its own table available, whatever its other fields |
| `RestaurantModels.Where` | restaurant/forms.py:76-81 | an ORM filter returns exactly the stored rows that satisfy the condition; it is non-empty iff such a row exists |
| `RestaurantModels.Find` | restaurant/views.py:174 | looking up by primary key yields a stored row with that key, and yields nothing iff no row has that key |
| `RestaurantModels.NextId` | restaurant/views.py:135 | the key a saved row receives differs from every stored key |
| `RestaurantModels.OverlapSameDate` | restaurant/forms.py:96-98 | on one date and one table, two hour-long slots overlap iff their start times are less than 60 minutes apart |
| `ReservationForm.WindowEnd` | restaurant/forms.py:73 | the end of the forward window is start + 60 before 23:00; from 23:00 on it wraps past midnight and lies before the start |
| `ReservationForm.Clean` | restaurant/forms.py:57-103 | on success the cleaned data is returned unchanged; a missing date or time skips every check; the past-date refusal happens iff date+time is strictly before now (exactly now passes), and it takes precedence over both queries; a conflict error names the chosen table's number |
| `ReservationForm.SlotTakenIff` | restaurant/forms.py:72-85 | the forward query refuses iff the request is not in the past and some same-table, same-date row starts in `[start, (start+60) mod 24h)` |
| `ReservationForm.TooSoonIff` | restaurant/forms.py:87-102 | the backward query refuses iff the request is timely, nothing is in the forward window, and some same-table, same-date row starts before the request and runs past its start |
| `ReservationForm.LateForwardWindowEmpty` | restaurant/forms.py:72-85 | from 23:00 on, the forward query never refuses |
| `ReservationForm.CleanAcceptsIffNothingNearby` | restaurant/forms.py:72-102 | before 23:00, a timely request is accepted iff no same-table, same-date reservation starts less than 60 minutes from it |
| `ReservationForm.LateCleanAcceptsIffNothingBefore` | restaurant/forms.py:72-102 | from 23:00 on, a timely request is accepted iff no same-table, same-date row starts in the hour before it; rows at the same minute or later do not block |
| `ReservationForm.BackToBackAccepted` | restaurant/forms.py:96-98 | a booking that ends exactly at the requested start does not block the request |
| `ReservationForm.CleanIgnoresStatus` | restaurant/forms.py:76-93 | changing the status or active flag of stored rows never changes the outcome |
| `ReservationForm.CanceledStillBlocks` | restaurant/forms.py:76-81 | a canceled, inactive reservation at the requested hour still refuses the request as taken |
| `ReservationForm.SubmissionOf` | restaurant/forms.py:60-62 | the form bound to a stored reservation carries that reservation's table, date, time and guests |
| `ReservationForm.RevalidationConflictsWithItself` | restaurant/forms.py:76-81 | re-validating an unchanged, stored, upcoming reservation before 23:00 refuses it as taken by itself |
| `RestaurantViews.Candidate` | restaurant/views.py:108-116 | the reservation built from the form has the form's table, date, time, guests, name, e-mail and phone; it has no owner and no creation time, status "Reserved", is active, and has a key no stored row uses |
| `RestaurantViews.Book` | restaurant/views.py:101-140 | a booking is saved iff the form is complete and valid, the exact slot is free, guests do not exceed capacity, and the user is logged in; each failure happens iff every earlier check passed and its own check failed, so an incomplete or invalid form, a taken slot and too many guests are reported before the owner is assigned, and the anonymous-user crash happens iff all three checks pass; on success the tables are unchanged and exactly one row is appended after the unchanged existing rows, owned by the requesting user |
| `RestaurantViews.BookPreservesWellFormed` | restaurant/views.py:133-137 | booking keeps primary keys unique and every reservation's table present |
| `RestaurantViews.ExactSlotCheckRedundantBefore23` | restaurant/views.py:119-125 | before 23:00, a request the form accepts always passes `is_table_available` |
| `RestaurantViews.BookKeepsHoursApart` | restaurant/views.py:101-137 | before 23:00, a successful booking keeps every table's same-date reservations at least an hour apart |
| `RestaurantViews.LateOverlappingBookingSaved` | restaurant/views.py:119-137 | a 23:10 booking is saved beside the same table's 23:20 booking on that date, breaking the one-hour spacing |
| `RestaurantViews.CrossMidnightOverlapSaved` | restaurant/views.py:101-137 | a 00:10 booking is saved although the table's previous-day 23:30 booking overlaps it |
| `RestaurantViews.LateSameMinuteStoppedByExactSlot` | restaurant/views.py:119-125 | from 23:00 on, a request at the very minute of any stored booking of that table, for any user, is refused as taken by the exact-slot check whenever the form accepts it; when that booking is the only one, the form does accept it |
| `RestaurantViews.CapacityBoundary` | restaurant/views.py:127-131 | guests equal to capacity are accepted; capacity + 1 is refused with the capacity for any user, logged in or not; a negative guest count passes |
| `RestaurantViews.ExampleHalfHourBefore` | restaurant/views.py:101-125 | with table 3 booked at 18:00, a 17:30 request is refused by the forward query |
| `RestaurantViews.ExampleHalfHourAfter` | restaurant/views.py:101-125 | with table 3 booked at 18:00, an 18:30 request is refused by the backward query |
| `RestaurantViews.ExampleBackToBack` | restaurant/views.py:101-137 | with table 3 booked at 18:00, a 19:00 request is saved |
| `RestaurantViews.ExampleCapacity` | restaurant/views.py:127-137 | at 20:00, four guests at the four-seat table are saved and five are refused with capacity 4 |
| `RestaurantViews.ExamplePast` | restaurant/views.py:101-105 | a request for a day before now is refused as past |
| `RestaurantViews.SetStatus` | restaurant/views.py:281-282 | exactly the rows with the given key get the new status; every other row is unchanged |
| `RestaurantViews.Confirm` | restaurant/views.py:171-187 | an unknown key is reported as not found (and only then); a save would write status "confirmed" to that row only |
| `RestaurantViews.ConfirmNeverPersists` | restaurant/views.py:174-182 | confirming always fails: a stored reservation finds its own slot taken, an unknown key is not found, and "confirmed" is not a choice |
| `RestaurantViews.UpdateStatus` | restaurant/views.py:267-284 | an unknown key is not found; the confirm choice is refused iff the current status is not "Reserved"; those are the only failures, so the update succeeds iff the row exists and is not such a refused confirm; a missing value or a value outside the choices changes nothing; any other choice is written to that row only; the tables never change |
| `RestaurantViews.CanceledIsNotTerminal` | restaurant/views.py:273-282 | a canceled reservation cannot be confirmed directly, but it can be set back to "Reserved" and then confirmed |
| `RestaurantViews.FindUnique` | restaurant/views.py:269 | with unique keys, the lookup returns the row stored under that key |
| `RestaurantViews.SetStatusKeepsIds` | restaurant/views.py:281-282 | a status write keeps every row's key, table, date and time, and keeps keys unique |
| `RestaurantViews.SetStatusPreservesInvariants` | restaurant/views.py:281-282 | a status write keeps keys unique, foreign keys resolvable, and same-date bookings an hour apart |
| `RestaurantViews.UpdateStatusPreservesInvariants` | restaurant/views.py:267-284 | the status update keeps keys unique, foreign keys resolvable, and same-date bookings an hour apart |
| `RestaurantViews.MarkAvailable` | restaurant/views.py:213-214 | exactly the tables with the given key become "available"; the others are unchanged |
| `RestaurantViews.Cancel` | restaurant/views.py:190-219 | cancelling succeeds iff a row has that key, and fails only as not found; on success exactly the rows with that key are deleted, and exactly the reservation's table becomes "available" |
| `RestaurantViews.CancelFreesTableRegardless` | restaurant/views.py:210-214 | cancelling deletes the reservation and marks its table available even while another booking of that table remains |
| `RestaurantViews.WhereKeepsUniqueIds` | restaurant/views.py:190-193 | deleting rows keeps the remaining keys unique |
| `RestaurantViews.CancelPreservesInvariants` | restaurant/views.py:190-219 | cancelling keeps keys unique, foreign keys resolvable, and same-date bookings an hour apart |
| `Text.Lower` | restaurant/forms.py:188 | a lowered character is never upper case, and a character that is not upper case is unchanged |
| `Text.LowerString` | restaurant/forms.py:188 | `str.lower()` keeps the length and lowers each character in place; the result has no upper-case letter, and a string without one is returned unchanged |
| `Text.LowerStringIdempotent` | restaurant/forms.py:188 | lowering a string twice is the same as lowering it once |
| `Text.EndsWithIffConcat` | restaurant/forms.py:203 | `endswith` holds iff the string is some prefix followed by the suffix |
| `Text.Words` | restaurant/forms.py:187 | `split()` yields non-empty words free of whitespace, and yields none iff the string is all whitespace |
| `Text.WordsLoseOnlySeparators` | restaurant/forms.py:187 | joining the words of `split()` gives the string with every whitespace character removed |
| `Text.WordsCons` | restaurant/forms.py:187 | a non-empty word followed by whitespace or by nothing is split off whole as the first word: `split()` takes maximal runs |
| `Text.WordsSkipSpace` | restaurant/forms.py:187 | leading whitespace does not change the result of `split()` |
| `Text.WordsOfTwo` | restaurant/forms.py:187 | two words joined by a space split back into exactly those two words |
| `ContentForms.CleanDescription` | restaurant/forms.py:183-190 | refusal happens iff the first word, lowered, is banned; a description with no word yields `None`; otherwise the description is returned unchanged |
| `ContentForms.DescriptionRejectionIsSound` | restaurant/forms.py:183-190 | a refused description always contains a banned word |
| `ContentForms.BannedSecondWordPasses` | restaurant/forms.py:187-190 | a harmless first word followed by a banned second word is accepted unchanged |
| `ContentForms.BannedSecondWordExample` | restaurant/forms.py:187-190 | "хорошо казино" is accepted though it contains a banned word |
| `ContentForms.CheckImage` | restaurant/forms.py:200-204 | a file passes iff it is at most 5 MiB and its name ends in "png" or "jpg"; size is checked before the extension |
| `ContentForms.CleanImageUnguarded` | restaurant/forms.py:192-206 | a missing file crashes; a present file passes iff the size and extension tests pass, and is returned unchanged |
| `ContentForms.CleanImageGuarded` | restaurant/forms.py:236-250 | a missing file passes as `None` and never crashes; a present file passes iff the size and extension tests pass |
| `ContentForms.ImageVariantsAgreeOnFiles` | restaurant/forms.py:236-250 | the guarded and unguarded checks agree on every present file |
| `ContentForms.ImageBoundaries` | restaurant/forms.py:197-204 | exactly 5 MiB passes and one byte more does not; "jpeg" and upper-case "PNG" are refused |
| `UserForms.RegisterClean` | users/forms.py:34-51 | a missing username, or a non-empty username with a missing first name, crashes; both fields are marked iff the username is non-empty and the lowered first name is exactly a banned word; otherwise there is no error |
| `UserForms.ShadowedPasswordCheck` | users/forms.py:13-19 | the shadowed definition refuses iff both passwords are non-empty and differ |
| `UserForms.MismatchedPasswordsAccepted` | users/forms.py:13-51 | the effective `clean` accepts differing passwords that the shadowed definition would refuse |
| `UserForms.BannedNameExamples` | users/forms.py:39-51 | "Радар" is caught whatever its case; "радары" is not, because substrings do not match; an empty username switches the check off |
| `UserForms.CleanPhoneNumber` | users/forms.py:53-57 | a number passes iff it is absent, empty, or all digits; it is returned unchanged |
| `UserForms.PhoneExamples` | users/forms.py:55-56 | a leading "+" or an inner space is refused; a digit string or an empty one passes |
| `UserForms.CleanAvatar` | users/forms.py:59-74 | without the key "image" the result is `None`; with it, the file passes iff it is at most 5 MiB and ends in "jpg", "jpeg" or "png" |
| `UserForms.AvatarNeverChecked` | users/forms.py:21-64 | the form has no "image" field, so the avatar is always cleaned to `None`, unchecked |
| `UserForms.CleanProfileImage` | users/forms.py:178-191 | a missing file crashes; a present one passes iff it is at most 5 MiB and ends in "png" or "jpg"; an oversized file and a wrong extension each raise an uncaught exception, and no input gets a form field error |
| `UserForms.ProfileImageRaisesWhereFormsRefuse` | users/forms.py:185-189 | the profile check accepts exactly the files the restaurant forms' check accepts; where those report "too large" or "bad format" as a field error, the profile form raises the corresponding uncaught exception |
| `UserForms.JpegAvatarButNotProfileImage` | users/forms.py:178-191 | "me.jpeg" would satisfy the avatar suffixes, but as a profile image it raises an uncaught exception |

## Left out

- ORM query execution, transactions, the messages framework, redirects and
  templates. Each query is a filter over the stored sequence, and a view's
  response is reduced to its `Result`.
- Permission logic (`LoginRequiredMixin`, `test_func`, `handle_no_permission`),
  form widgets and CSS (`StyleFormMixin`, the `__init__` placeholders and
  labels). These are presentation and access control, not reservation logic.
- The check-then-save race between concurrent bookings. The model is
  sequential.
- ReservationForm.Clean: dates are unbounded day numbers. Python's `date` ends
  at 9999-12-31. On that date, adding 60 minutes at restaurant/forms.py
  line 73 (for a start from 23:00 on) raises an uncaught `OverflowError`, and
  so does the addition at line 97 (for a stored row of that date from 23:00
  on). The model accepts or refuses such requests as on any other date.
- Wall-clock time and time zones. "Now" is a parameter counted in whole
  minutes, so the seconds and microseconds of `datetime.now()` are not
  modelled.
- Django's field-level cleaning: type coercion, e-mail format and
  `max_length`. A field that fails it is `None` in the submission.
- The primary key the database assigns is modelled as one more than the
  largest stored key. The model relies only on it being fresh.
- `created_at` is never set by the booking view, so it stays `None`.
  `ReservationUpdateView` and `ReservationDeleteView` are not modelled; the
  update view's self-conflict is stated by
  `ReservationForm.RevalidationConflictsWithItself`.
- `ConfirmReservationView.get_context_data` and the GET pages are not
  modelled, and neither is the redirect target chosen after a cancel. These
  are read-only pages and navigation.
- The table status `"reserved"` is never written by any modelled view. The
  model keeps the value but no operation produces it.
- Unicode: `Text.IsDigit` accepts only `0`-`9`. `str.isdigit` also accepts
  other digit characters. `Text.Lower` lowers only the Latin, Latin-1 and
  Cyrillic capitals, one character to one character. This is enough for
  the banned words, which are Cyrillic.
- Files: a missing upload and a cleared one (`False`) are both `None`. A
  present upload always has a non-empty name, so `if image:` holds for it.
  Storage errors when reading `size` are not modelled.
- `users/models.py` is not part of this model. The `CustomUser` fields are
  taken from the form field lists.
- The user views (e-mail confirmation, password reset, profile, blocking),
  routing, the admin and the management command. They are CRUD, e-mail and
  configuration glue.
