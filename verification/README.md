# Event signup admission engine — a Dafny model

This project models the admission engine of a club's event-signup site:
the five Django forms of `events/forms.py` that decide whether a member
or a prospective may sign up for an event (with an optional guest, in a
chosen room), delete their entry, change their question answers, change
their guest, or move to another room. Each form's `clean()` is a pure
function over a snapshot of the event's rooms and entries that rejects at
the first failing check. Each commit step is a method on the class
`EventEntries`, the event's entry store, and it writes only when the
decision admits. The project also models the meal helpers of
`kitchen/models.py`: the prospective ("sophomore") count, `is_full`, the
count/limit text and the upload size bound.

Files:

- wrappers.dfy: `Option` and `Result`.
- text.dfy: Python's `str.strip()` and `str.lower()`, and the `%s`
  rendering of an integer with its parser.
- `event_model.dfy`: students, rooms, questions, answers, entries, events,
  and the capacity ledger. The ledger holds `Room.num_people()`,
  `Event.get_guests(student)` and the prospective count.
- admission.dfy: the decisions of the five forms and the entries each
  commit leaves. It also holds the safety lemmas: room limits, the
  prospective cap, the cleanup of guest-less entries, the answers, and
  occupancy-neutral swaps and moves.
- quirks.dfy: what the code does, and what it evidently meant, at four
  places where the two differ (see Findings).
- `entry_store.dfy`: class `EventEntries` with the commit methods. Its
  invariant is the store's consistency (unique keys, entries in the
  event's rooms). Each form operation also keeps the safe ledger: rooms
  within their limits, prospectives within the cap, and one entry per
  student.
- kitchen.dfy: the meal helpers and `validate_file`.

Time instants are integers: each signup date is combined with the event's
signup time of day, in one reference zone. The current time and
`Student.get_senior_year()` are inputs, carried in `Context`. `Reading`
selects, in one place, the as-written or the intended behaviour of the
four quirks. `AsWritten` is the code.

The model follows the code where it departs from the source's own
documentation and messages:

- A guest limit of -1 rejects every guest, although the field's help text
  says -1 means "as many guests as they can"
  (events/migrations/0001_initial.py:37).
- Classes two or more years below the seniors open with the junior date,
  although the refusal says "Sophomores start signing up at" and the event
  has a `sophomore_signup_start` date (events/forms.py:130-134,
  events/migrations/0001_initial.py:42).
- Any earlier entry of the student blocks a new signup, although the
  refusal says only a different room should ("You must accompany your
  previous guests in room %s", events/forms.py:163-169).
- A Prospective cannot name a guest when signing up, because
  `EventEntryForm` never offers them the guest fields (events/forms.py:49).
  The "not allowed to bring guests" error of forms.py:69-78 is never
  raised. `ChangeGuestForm`, however, always has the guest fields
  (forms.py:319-322), and its `clean()` never tests the student's class
  (forms.py:328-357). So a Prospective can add a guest to their entry
  afterwards, like any member.

It also keeps these details of the code:

- The prospective count counts entries, not distinct students
  (events/forms.py:101-102).
- The close instant itself is still admitted (`now > signup_end` is the
  refusal, events/forms.py:139-141).

## Model

| member | source | states |
|---|---|---|
| `Admission.CleanSignup` | events/forms.py:81-180 | The signup is admitted iff none of the ten checks fails. When one fails, the rejection names a failing check, and no check earlier in the form's order fails. The order is: no room, "no", allow_rsvp false, prospective cap, not yet open, closed, duplicate (student, guest) pair, guest limit, prior room, overflow. An admission carries the chosen room and the resolved guest name. |
| `Admission.ValidateSignup` | events/forms.py:60-64 | The form is valid iff no required question is blank and clean() finds no failure. |
| `Admission.SignupGuestName` | events/forms.py:144-151 | Without guest fields (Prospectives, or guest_limit 0), the guest name is "". Otherwise it is `"<first> <last>".strip()`, which is also "" when both fields are blank. |
| `Admission.JoinedName` | events/forms.py:333-337 | The joined, stripped name is empty iff both parts are white space. Otherwise it neither starts nor ends with white space. |
| `Text.Strip` | events/forms.py:337 | The result is empty iff the input is all white space. Otherwise it neither starts nor ends with white space. |
| `Text.StripLowerOfStripped` | events/forms.py:363 | A string with no white space at either end, lower-cased, is unchanged by strip(). |
| `Admission.AdmittedInsideWindow` | events/forms.py:108-141 | An admitted signup is at or after the opening instant of the student's class, and at or before the close, which applies to every class. |
| `Admission.OpenInstant` | events/forms.py:107-134 | Prospectives open at prospective_signup_start. Classes up to the senior year open at senior_signup_start, and the next class at junior_signup_start. Classes two or more years below the seniors open at junior_signup_start as written, and at sophomore_signup_start under the corrected reading. |
| `Admission.WindowDecides` | events/forms.py:107-141 | When every other check passes, the signup is admitted iff open ≤ now ≤ close, so both boundary instants are admitted. |
| `Admission.ProspectiveCapRule` | events/forms.py:100-105 | A member is never refused by the cap. A limit of 0 or less admits no Prospective. Once the earlier checks pass, the cap refuses iff the student is a Prospective and existing prospective entries + 1 > prospective_limit. |
| `EventModel.ProspectiveCount` | events/forms.py:101-104 | The count is the number of entry positions whose student is a Prospective. So it is at most the number of entries, and 0 iff no entry belongs to a Prospective. |
| `EventModel.SameStudentsLedger` | events/forms.py:298-306 | A rewrite that keeps each entry's student (new answers, a new guest, a new room) keeps the prospective count and "one entry per student". |
| `Admission.RoomOverflowRule` | events/forms.py:176-186 | An admitted party fits: (2 with a guest, else 1) + num_people ≤ limit, so filling the room exactly is allowed. A party that does not fit is refused. |
| `Admission.ProspectiveHasNoGuest` | events/forms.py:49-58 | An admitted Prospective always has guest "". |
| `Admission.AnswersFor` | events/forms.py:205-213 | A new entry gets exactly one Answer per event question, in question order. The i-th answer holds the i-th submitted text, and "" for a question with no submitted field. Its text is "" exactly when that question was left blank. |
| `Admission.Saved` | events/forms.py:195 | `save()` on a stored key keeps the length, and on a new key adds one entry. The saved entry is in the result. Every other entry was there before, and every entry with another key keeps its place. |
| `Admission.ApplySignup` | events/forms.py:194-214 | The commit contains the new entry with its answers. It holds at most one entry more than before, and every other entry it holds was there before. |
| `Admission.ApplySignupShape` | events/forms.py:195-214 | With a fresh key, the commit leaves the old entries followed by the new entry with its answers. If the student then has a guest entry, their guest-less entries are removed from the old ones. |
| `Admission.SignupKeepsCapacity` | events/forms.py:172-178 | If no room of the event was over its limit, none is after an admitted signup is committed. |
| `Admission.SignupKeepsProspectiveCap` | events/forms.py:101-105 | After an admitted Prospective's commit, prospective entries ≤ prospective_limit. A cap that held before still holds after any admitted signup. |
| `Admission.SignupCleansGuestless` | events/forms.py:197-203 | Once the student has a guest entry, none of their other entries without a guest survives the commit. The new entry, with its answers, is last. |
| `Admission.AsWrittenSignupKeepsOneEntry` | events/forms.py:163-169 | As written, an admitted signup keeps "at most one entry per student". The commit only appends to the old entries. |
| `Admission.CleanDeletion` | events/forms.py:261-264 | A deletion is admitted iff the entry's netid is the requester's. Otherwise it is refused as NotOwner. |
| `Admission.DeletionKeepsLimits` | events/forms.py:266-268 | Deleting an entry removes that key. It never overfills a room and never raises the prospective count. |
| `Admission.WithoutIdAt` | events/forms.py:266-268 | With unique primary keys, deleting removes exactly the entry at that key's position. The others stay, in order. |
| `Admission.CleanAnswerChange` | events/forms.py:293-296 | An answer change is admitted iff the requester owns the entry and no required question is blank. A non-owner is always refused. |
| `Admission.RewriteAnswers` | events/forms.py:300-306 | change_answers keeps the number of answers and each answer's question. An answer to none of the rewritten questions is unchanged. |
| `Admission.RewriteAnswersEffect` | events/forms.py:298-306 | change_answers creates no Answer and relabels none. With distinct questions, each answer to the i-th question gets the i-th submitted text. Answers to other questions are unchanged. |
| `Admission.CleanGuestChange` | events/forms.py:328-394 | A non-owner is refused first. For the owner: an empty new name is a remove with name "". Otherwise a name equal to the current guest (lower-cased, the guest also stripped) is refused as a duplicate. Otherwise a current guest makes it a swap to the new name. With no current guest, it is an add iff the guest limit is not reached and the room is below its limit; a reached limit is refused as GuestLimitReached, and a full room as RoomAtCapacity. The resulting name is always the stripped new name. |
| `Admission.GuestChangeKeepsCapacity` | events/forms.py:396-407 | If no room was over its limit before an admitted remove, swap or add, none is after it. |
| `Admission.GuestSwapIsNeutral` | events/forms.py:405-407 | A swap leaves every room's occupancy unchanged. |
| `Admission.ResubmittedGuestIsDuplicate` | events/forms.py:362-365 | Submitting the entry's current guest again, in any capitalisation, is refused as a duplicate. |
| `Admission.GuestChangeIgnoresClass` | events/forms.py:328-357 | The guest-change decision is the same whatever the requester's class, so a Prospective owner can add a guest when a member could. |
| `Admission.CleanRoomChange` | events/forms.py:436-453 | A non-owner is refused. Otherwise the move is refused iff 1 + the student's guests + the target's occupancy > the target's limit. As written, that occupancy is the target's whole count. |
| `Admission.TargetOccupancy` | events/forms.py:449-453 | As written, the occupancy is the target's whole count. Under the corrected reading it is that count less the student's own share, so it never exceeds the whole count. |
| `Admission.MoveStudent` | events/forms.py:469-472 | The move keeps the number of entries and every entry's student. Each entry of the student becomes the same entry in the target room, and every other entry is unchanged. |
| `Admission.RoomChangeIsNeutral` | events/forms.py:466-472 | A room change keeps the event's total occupancy. |
| `Admission.RoomChangeKeepsCapacity` | events/forms.py:449-472 | With one entry per student, no room is over its limit after an admitted move, if none was before. |
| `EntryStore.EventEntries.Signup` | events/forms.py:190-214 | Returns the form's decision. A rejection writes nothing. An admission leaves exactly the committed entries of the signup model. It keeps room limits and the prospective cap, and (as written) one entry per student, so as written the safe ledger stays safe. The store stays consistent. |
| `EntryStore.EventEntries.Commit` | events/forms.py:195-214 | Saves the new entry, then drops the student's guest-less entries once one of theirs has a guest, then saves the entry with its answers. The new state is exactly the signup commit of the model. Keys stay unique, every entry stays in an event room, and the next key moves on by one. |
| `EntryStore.EventEntries.DropGuestless` | events/forms.py:197-203 | Leaves every entry except the student's guest-less ones, in their order. A safe ledger stays safe. |
| `EntryStore.CollectAnswers` | events/forms.py:205-213 | Builds one Answer per question, in order, with "" for an unanswered question. |
| `EntryStore.EventEntries.Delete` | events/forms.py:266-268 | Returns the ownership decision. On admission exactly the entry with that key is removed, and the others stay in order. On rejection nothing changes. Room limits are kept, a safe ledger stays safe, and the store stays consistent. |
| `EntryStore.EventEntries.Remove` | events/forms.py:268 | Removes the entry at that key's position and nothing else. Room limits, a safe ledger and the store's consistency are kept. |
| `EntryStore.EventEntries.ChangeAnswers` | events/forms.py:298-306 | Returns the form's decision. On admission only that entry's answers change, to the rewritten texts. On rejection nothing changes. A safe ledger stays safe. |
| `EntryStore.EventEntries.SetAnswers` | events/forms.py:303-306 | Only that entry's answers change. Keys and rooms are kept, and a safe ledger stays safe. |
| `EntryStore.EventEntries.ChangeGuest` | events/forms.py:396-417 | Returns the classification. On admission only that entry's guest field changes, to the new name ("" for a remove). On rejection nothing changes. Room limits are kept, and a safe ledger stays safe. |
| `EntryStore.EventEntries.ApplyGuestChange` | events/forms.py:396-417 | A remove writes "". A swap writes "" and then the new name. An add writes the new name. Either way, only that entry's guest field changes. A remove or a swap of an existing guest keeps room limits and a safe ledger, and so does an add into a room below its limit. |
| `EntryStore.EventEntries.AdditionalPeople` | events/forms.py:455-464 | Returns the student's full name followed by every non-empty guest on their entries. |
| `EntryStore.EventEntries.ChangeRoom` | events/forms.py:436-472 | Returns the form's decision. On admission, exactly the student's entries get the target room. On rejection nothing changes. Total occupancy is unchanged, and a safe ledger stays safe. |
| `EntryStore.EventEntries.MoveEntries` | events/forms.py:469-472 | Every entry of the student, and only those, ends in the target room. |
| `Quirks.SophomoresOpenWithJuniors` | events/forms.py:130-134 | As written, a student two or more years below the seniors passes the opening check once the junior date is reached, before the sophomore date. clean() never refuses them as not open then. |
| `Quirks.SophomoresOpenOnTheirOwnDate` | events/forms.py:130-134 | Under the corrected reading, the opening check fails for that student iff now < sophomore_signup_start. |
| `Quirks.MinusOneLimitRejectsEveryGuest` | events/forms.py:158-161 | As written, with guest_limit = -1 every signup that names a guest is refused. |
| `Quirks.MinusOneLimitRejectsGuestAdd` | events/forms.py:369-373 | As written, with guest_limit = -1 no guest can be added to an entry. |
| `Quirks.MinusOneLimitIsUnlimited` | events/forms.py:158-161 | Under the corrected reading, -1 never triggers the guest-limit check for any guest name, so clean() never refuses with it. |
| `Quirks.MinusOneLimitAllowsGuestAdd` | events/forms.py:347-351 | Under the corrected reading, -1 never triggers the guest-limit refusal when adding a guest. |
| `Quirks.AnyPriorEntryBlocks` | events/forms.py:163-169 | As written, any earlier entry of the student blocks a new signup, even one in the same room. |
| `Quirks.SameRoomResubmissionPasses` | events/forms.py:163-169 | Under the corrected reading, a student whose entries are all in the chosen room passes the prior-room check. |
| `Quirks.StayingPutInAFullRoomIsRefused` | events/forms.py:449-453 | As written, asking to move into one's own room, when it is full, is refused as overflow. |
| `Quirks.StayingPutIsAdmitted` | events/forms.py:449-453 | Under the corrected reading, and with one entry per student, staying in one's own room is admitted while that room is within its limit. |
| `Kitchen.NumOfSophomores` | kitchen/models.py:64-68 | The count is the number of positions in the meal entries whose entry is attached to this meal. |
| `Kitchen.NumOfSophomoresBound` | kitchen/models.py:64-68 | The count never exceeds the number of entries. It equals it when every entry is this meal's. |
| `Kitchen.IsFull` | kitchen/models.py:70-78 | The meal is full iff the entries attached to it number at least sophomore_limit. |
| `Kitchen.ZeroLimitAdmitsNobody` | kitchen/models.py:50 | With sophomore_limit ≤ 0 (0 is the default), the meal is full even with no entries. |
| `Kitchen.FullStaysFull` | kitchen/models.py:70-78 | Adding an entry never makes a full meal non-full. |
| `Kitchen.SophomoreLimitText` | kitchen/models.py:80-85 | The text holds a '/'. Before the first one is the rendered count, and after it the rendered limit. |
| `Kitchen.LimitTextRoundTrip` | kitchen/models.py:80-85 | "<count>/<limit>" reads back, split at its only '/', to exactly the count and the limit. |
| `Text.ParseIntToString` | kitchen/models.py:85 | The `%s` rendering of any integer parses back to that integer. |
| `Kitchen.ValidateFile` | kitchen/models.py:37-44 | A file is refused iff it is larger than 5·1024·1024 bytes. The refusal names the 5 MB limit. |
| `Kitchen.UploadBoundary` | kitchen/models.py:41-42 | A file of exactly 5 MiB is accepted. One byte more is refused. |

## Left out

- Django form and field construction, crispy-forms buttons, labels, help
  texts and message formatting (`strftime`). Rejections are the
  `Rejection` values without their text.
- Time zones (`make_aware`) and calendar dates. Instants are integers in
  one reference zone.
- The clock (`timezone.now()`) and `Student.get_senior_year()` (the
  faceboard's date-based rollover) are inputs in `Context`.
- `Room.num_people()` and `Event.get_guests()` live in `events/models.py`,
  which is not part of this model. They are modelled as `NumPeople` and
  `GuestsOf`, as the forms use them.
- Field validation other than blank required questions. The CharField
  whitespace handling and the yes/no choice are not modelled. The yes/no
  choice is a `bool`, and the deletion form's confirmation field is assumed
  submitted. A room choice outside the event's rooms reads as no room.
- `clean_guest_first_name` and `clean_guest_last_name` (forms.py:69-78)
  use `ValidationError` without importing it. They are unreachable,
  because the guest fields are never added for Prospectives (forms.py:49),
  so they are not modelled.
- `validate_file` uses `ValidationError` without importing it, so the
  refusal surfaces as a NameError. The model only records that the file
  is refused.
- EntryStore.EventEntries.ChangeAnswers: `change_answers` does not call
  `is_valid()` itself. The model applies the form's validation first, as
  its caller (`events/views.py`, not part of this model) is expected to.
- EntryStore.EventEntries.ChangeRoom: requires the target to be one of
  the event's rooms. Any other choice makes `cleaned_data['room_choice']`
  raise KeyError (forms.py:441, :450), a server error that is not
  modelled.
- Admission.RoomChangeKeepsCapacity: proved only for stores with at most
  one entry per student. With several entries, the party count
  `1 + guests` counts the student once. The as-written signup never
  creates a second entry.
- `Text.Lower` and `Text.Strip`: only ASCII letters are lower-cased and
  only C-locale white space (space, tab, newline, carriage return,
  vertical tab, form feed) is stripped. Python's `str.strip()` also
  removes the separators U+001C to U+001F and other Unicode white space,
  and its Unicode case table is wider. Neither table is modelled.
- Rooms are compared by value, not by primary key. The store's
  consistency invariant keeps every entry in one of the event's rooms,
  whose keys are unique, so for stored entries the two comparisons agree.
  A second Room value with an existing key but another name or limit is
  not modelled.
- The store starts consistent: unique entry keys, every entry in one of
  the event's rooms, every key below the next one. The database
  guarantees this, and the model does not construct it.
- EntryStore.EventEntries.Signup: under the corrected prior-room reading
  it keeps room limits and the prospective cap, but not "one entry per
  student". A same-room re-signup adds a second entry. So the safe
  ledger is promised only as written.
- EntryStore.EventEntries.Commit and EntryStore.EventEntries.MoveEntries:
  they promise the new entries and the store's consistency, not the safe
  ledger. They are the write steps of Signup and ChangeRoom, which run the
  form's checks first and carry the ledger's safety.
- The order of a queryset (`old_room_q[0]`) is taken to be storage order.
- After the sibling cleanup deletes the new entry (possible only under the
  intended prior-room reading), the final `save()` re-inserts it. The model
  follows Django's update-else-insert `save()`.
- The race between `clean()` and `save()` under concurrent requests. Each
  request is one sequential step.
- The commented-out `EventCreateForm`, `EventEditForm` and
  `EventChoiceForm` (dead code). Views, URL routing, the admin screens,
  migrations, `InheritanceCastModel` downcasting, and the meal's file
  field and `__unicode__`.

## Findings

| source | as written | input that shows it | evidently intended | confidence | as-written member | corrected member |
|---|---|---|---|---|---|---|
| events/forms.py:130-134 | Classes two or more years below the seniors are checked against `junior_signup_start`. `sophomore_signup_start` is never read. | A sophomore-year student, with junior_signup_start ≤ now < sophomore_signup_start | Such students wait for `sophomore_signup_start` | high (not executed) | `Quirks.SophomoresOpenWithJuniors` | `Quirks.SophomoresOpenOnTheirOwnDate` |
| events/forms.py:158-161 | `len(guests) >= guest_limit` holds for every guest list when guest_limit = -1 | guest_limit = -1 and any non-empty guest name | -1 means "as many guests as they can" (events/migrations/0001_initial.py:37) | high (not executed) | `Quirks.MinusOneLimitRejectsEveryGuest` | `Quirks.MinusOneLimitIsUnlimited` |
| events/forms.py:166-168 | `old_room` is an Entry compared with a Room, so the two are never equal | A student with an entry in room R signs up again for R with a new guest | Refuse only when the earlier entry's room differs from the chosen room | high (not executed) | `Quirks.AnyPriorEntryBlocks` | `Quirks.SameRoomResubmissionPasses` |
| events/forms.py:451 | The party is added to the target's whole occupancy, which already holds it when the target is the current room | A student alone in room R with limit 1 asks to move to R | Count the target's occupancy without the student's own entries | medium (not executed) | `Quirks.StayingPutInAFullRoomIsRefused` | `Quirks.StayingPutIsAdmitted` |
