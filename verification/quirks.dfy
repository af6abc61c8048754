/**
 * Four places where events/forms.py does something other than what its
 * documentation and messages say it means. For each, one lemma shows what
 * the code does (Reading AsWritten) and one proves the evidently intended
 * behaviour of the corrected reading (Reading Intended).
 */
module Quirks {
  import opened Wrappers
  import opened EventModel
  import opened Admission

  // ---------------------------------------------------------------------
  // 1. Classes two or more years below the seniors open with the juniors.

  /** As written, such a student passes the opening check between the junior and the sophomore dates. */
  lemma SophomoresOpenWithJuniors(
    event: Event, entries: seq<Entry>, student: Student, req: SignupRequest, ctx: Context)
    requires ctx.reading == AsWritten && student.kind != Prospective && student.year >= ctx.seniorYear + 2
    requires event.juniorStart <= ctx.now < event.sophomoreStart
    ensures !NotYetOpen(event, student, ctx)
    ensures CleanSignup(event, entries, student, req, ctx) != Err(SignupNotOpen)
  {
  }

  /** Corrected, the sophomore date governs: before it the signup is refused as not open. */
  lemma SophomoresOpenOnTheirOwnDate(event: Event, student: Student, ctx: Context)
    requires ctx.reading == Intended && student.kind != Prospective && student.year >= ctx.seniorYear + 2
    ensures NotYetOpen(event, student, ctx) <==> ctx.now < event.sophomoreStart
  {
  }

  // ---------------------------------------------------------------------
  // 2. A guest limit of -1 ("as many guests as they can") admits no guest.

  /** As written, with guest_limit = -1 every signup that names a guest is refused. */
  lemma MinusOneLimitRejectsEveryGuest(
    event: Event, entries: seq<Entry>, student: Student, req: SignupRequest, ctx: Context)
    requires ctx.reading == AsWritten && event.guestLimit == -1
    requires SignupGuestName(event, student, req) != ""
    ensures GuestLimitBlocks(event, entries, student, SignupGuestName(event, student, req), AsWritten)
    ensures !CleanSignup(event, entries, student, req, ctx).Ok?
  {
  }

  /** As written, with guest_limit = -1 adding a guest to an entry is refused too. */
  lemma MinusOneLimitRejectsGuestAdd(
    event: Event, entries: seq<Entry>, entry: Entry, requester: Student, first: string, last: string)
    requires event.guestLimit == -1
    ensures var r := CleanGuestChange(event, entries, entry, requester, first, last, AsWritten);
            !(r.Ok? && r.value.action == AddGuest)
  {
    assert OverGuestLimit(event.guestLimit, GuestsOf(entries, requester.netid), AsWritten);
  }

  /** Corrected, -1 means unlimited: the guest limit never refuses a signup. */
  lemma MinusOneLimitIsUnlimited(
    event: Event, entries: seq<Entry>, student: Student, req: SignupRequest, ctx: Context)
    requires ctx.reading == Intended && event.guestLimit == -1
    ensures forall guest :: !GuestLimitBlocks(event, entries, student, guest, Intended)
    ensures CleanSignup(event, entries, student, req, ctx) != Err(GuestLimitReached)
  {
    assert !OverGuestLimit(event.guestLimit, GuestsOf(entries, student.netid), Intended);
  }

  /** Corrected, -1 means unlimited: the guest limit never refuses an added guest. */
  lemma MinusOneLimitAllowsGuestAdd(
    event: Event, entries: seq<Entry>, entry: Entry, requester: Student, first: string, last: string)
    requires event.guestLimit == -1
    ensures CleanGuestChange(event, entries, entry, requester, first, last, Intended) != Err(GuestLimitReached)
  {
    assert !OverGuestLimit(event.guestLimit, GuestsOf(entries, requester.netid), Intended);
  }

  // ---------------------------------------------------------------------
  // 3. The prior-room check compares an Entry with a Room.

  /**
   * As written, any earlier entry of the student blocks a new signup, even
   * in the same room, so the "resubmit this form to bring more guests"
   * path (forms.py:53-54) is never admitted.
   */
  lemma {:induction false} AnyPriorEntryBlocks(
    event: Event, entries: seq<Entry>, student: Student, req: SignupRequest, ctx: Context)
    requires ctx.reading == AsWritten && HasEntry(entries, student.netid)
    ensures !CleanSignup(event, entries, student, req, ctx).Ok?
  {
    var k :| 0 <= k < |entries| && Owns(entries[k], student.netid);
    NoEntriesOfContra(entries, student.netid, k);
  }

  lemma {:induction false} EntriesOfMembers(s: seq<Entry>, netid: string)
    ensures forall x :: x in EntriesOf(s, netid) ==> x in s && Owns(x, netid)
    decreases |s|
  {
    if s != [] {
      var p := s[..|s| - 1];
      EntriesOfMembers(p, netid);
      forall x | x in EntriesOf(s, netid) ensures x in s && Owns(x, netid) {
        if x in EntriesOf(p, netid) {
          var k :| 0 <= k < |p| && p[k] == x;
          assert s[k] == x;
        }
      }
    }
  }

  /** Corrected, a student whose entries are all in the chosen room passes the prior-room check. */
  lemma {:induction false} SameRoomResubmissionPasses(
    event: Event, entries: seq<Entry>, student: Student, req: SignupRequest, ctx: Context, room: Room)
    requires ctx.reading == Intended && ChosenRoom(event, req) == Some(room)
    requires forall k :: 0 <= k < |entries| && Owns(entries[k], student.netid) ==> entries[k].room == room
    ensures !PriorRoomMismatch(entries, student.netid, room, Intended)
  {
    var prior := EntriesOf(entries, student.netid);
    if prior != [] {
      EntriesOfMembers(entries, student.netid);
      assert prior[0] in prior;
    }
    assert !PriorRoomMismatch(entries, student.netid, room, Intended);
  }

  // ---------------------------------------------------------------------
  // 4. Asking for the room one is already in counts one's party twice.

  /** As written, a student cannot "move" into their own room once it is full. */
  lemma StayingPutInAFullRoomIsRefused(
    s: seq<Entry>, k: nat, requester: Student)
    requires k < |s| && Owns(s[k], requester.netid)
    requires NumPeople(s, s[k].room) == s[k].room.limit
    ensures CleanRoomChange(s, s[k], requester, s[k].room, AsWritten) == Err(RoomOverflow)
  {
  }

  /**
   * Corrected (the party is not counted twice), staying in one's own room
   * is always admitted while that room is within its limit.
   */
  lemma {:induction false} StayingPutIsAdmitted(
    s: seq<Entry>, k: nat, requester: Student)
    requires k < |s| && Owns(s[k], requester.netid) && OneEntryPerStudent(s)
    requires NumPeople(s, s[k].room) <= s[k].room.limit
    ensures CleanRoomChange(s, s[k], requester, s[k].room, Intended) == Ok(())
  {
    var n := requester.netid;
    var room := s[k].room;
    EntriesOfOne(s, n, k);
    NumPeopleSplit(s, n, room);
    PartyTotal(s, n);
    assert NumPeople([s[k]], room) == Weight(s[k]) by { assert [s[k]][..0] == []; }
    assert TotalPeople([s[k]]) == Weight(s[k]) by { assert [s[k]][..0] == []; }
  }
}
