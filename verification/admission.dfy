/**
 * The admission engine of events/forms.py: what each form's clean() decides
 * from a snapshot of the event, and what the matching commit leaves in the
 * entry store. Decisions are pure functions; the store methods in
 * entry_store.dfy are proved to perform exactly the commits specified here.
 */
module Admission {
  import opened Wrappers
  import opened Text
  import opened EventModel

  /**
   * Four places where the code and its evident intent part ways (see the
   * Findings in README.md). AsWritten is the code; Intended is the fix.
   */
  datatype Reading = AsWritten | Intended

  /** The reasons a form rejects a request (each is a forms.ValidationError in the source). */
  datatype Rejection =
    | NoRoomChosen
    | NotAttending
    | RsvpNotAllowed
    | ProspectiveCapReached
    | SignupNotOpen
    | SignupClosed
    | DuplicateSubmission
    | GuestLimitReached
    | PriorRoomDiffers
    | RoomOverflow
    | RequiredAnswerMissing
    | NotOwner
    | GuestAlreadyPresent
    | RoomAtCapacity

  /** The clock reading, Student.get_senior_year(), and the chosen reading. */
  datatype Context = Context(now: int, seniorYear: int, reading: Reading)

  /** What EventEntryForm receives: the room choice, yes/no, guest name fields, one text per question. */
  datatype SignupRequest = SignupRequest(
    room: Option<Room>,
    attending: bool,
    guestFirst: string,
    guestLast: string,
    answers: seq<string>)

  /** An admitted signup: the room and the guest name the new entry gets. */
  datatype Admission = Admission(room: Room, guest: string)

  // ---------------------------------------------------------------------
  // Shared pieces

  /** The text submitted for the i-th question; a missing or empty field is "". */
  function AnswerText(texts: seq<string>, i: nat): string {
    if i < |texts| then texts[i] else ""
  }

  /** A required question was left blank: a field error, so the form is not valid. */
  predicate MissingRequired(questions: seq<Question>, texts: seq<string>) {
    exists i :: 0 <= i < |questions| && questions[i].required && AnswerText(texts, i) == ""
  }

  /** "%s %s" % (first, last), stripped. */
  function JoinedName(first: string, last: string): (name: string)
    ensures name == "" <==> AllSpace(first) && AllSpace(last)
    ensures name == "" || (!IsSpace(name[0]) && !IsSpace(name[|name| - 1]))
  {
    var s := first + " " + last;
    assert AllSpace(s) <==> AllSpace(first) && AllSpace(last) by {
      if AllSpace(first) && AllSpace(last) {
        forall k | 0 <= k < |s| ensures IsSpace(s[k]) {
          if k < |first| { assert s[k] == first[k]; }
          else if k > |first| { assert s[k] == last[k - |first| - 1]; }
        }
      }
      if AllSpace(s) {
        forall k | 0 <= k < |first| ensures IsSpace(first[k]) { assert s[k] == first[k]; }
        forall k | 0 <= k < |last| ensures IsSpace(last[k]) { assert s[|first| + 1 + k] == last[k]; }
      }
    }
    Strip(s)
  }

  /**
   * The guest-limit test of forms.py:160 and :372. As written, a limit of -1
   * (documented as "as many guests as they can") rejects every guest.
   */
  predicate OverGuestLimit(guestLimit: int, guests: seq<string>, reading: Reading) {
    match reading
    case AsWritten => |guests| >= guestLimit
    case Intended => guestLimit != -1 && |guests| >= guestLimit
  }

  // ---------------------------------------------------------------------
  // EventEntryForm.clean

  /** forms.py:49: the guest fields exist only for non-prospectives of events that allow guests. */
  predicate GuestFieldsOffered(event: Event, student: Student) {
    event.guestLimit != 0 && student.kind != Prospective
  }

  /** The guest name the signup form resolves (forms.py:145-151); fields not offered read as empty. */
  function SignupGuestName(event: Event, student: Student, req: SignupRequest): (guest: string)
    ensures !GuestFieldsOffered(event, student) ==> guest == ""
    ensures GuestFieldsOffered(event, student) ==> guest == JoinedName(req.guestFirst, req.guestLast)
  {
    if !GuestFieldsOffered(event, student) then ""
    else if req.guestFirst != "" || req.guestLast != "" then JoinedName(req.guestFirst, req.guestLast)
    else ""
  }

  /** The room choice survives field validation only if it is one of the event's rooms. */
  function ChosenRoom(event: Event, req: SignupRequest): Option<Room> {
    if req.room.Some? && req.room.value in event.rooms then req.room else None
  }

  /**
   * The instant signups open for this student (forms.py:110-134): the
   * prospective date for Prospectives, else by class year. As written,
   * every class two or more years below the seniors uses the junior date.
   */
  function OpenInstant(event: Event, student: Student, ctx: Context): (t: int)
    ensures student.kind == Prospective ==> t == event.prospectiveStart
    ensures student.kind != Prospective && student.year <= ctx.seniorYear ==> t == event.seniorStart
    ensures student.kind != Prospective && student.year == ctx.seniorYear + 1 ==> t == event.juniorStart
    ensures student.kind != Prospective && student.year >= ctx.seniorYear + 2 ==>
              t == if ctx.reading == AsWritten then event.juniorStart else event.sophomoreStart
  {
    if student.kind == Prospective then event.prospectiveStart
    else if student.year <= ctx.seniorYear then event.seniorStart
    else if student.year == ctx.seniorYear + 1 || ctx.reading == AsWritten then event.juniorStart
    else event.sophomoreStart
  }

  /** The opening check of clean() (forms.py:107-134) fails: the student's window has not opened. */
  predicate NotYetOpen(event: Event, student: Student, ctx: Context) {
    ctx.now < OpenInstant(event, student, ctx)
  }

  /** The guest-limit check of clean() (forms.py:158-161) fails for this resolved guest name. */
  predicate GuestLimitBlocks(event: Event, entries: seq<Entry>, student: Student, guest: string, reading: Reading) {
    guest != "" && OverGuestLimit(event.guestLimit, GuestsOf(entries, student.netid), reading)
  }

  /**
   * forms.py:163-169. As written, old_room is an Entry compared with a Room,
   * which are never equal, so any earlier entry of the student blocks.
   */
  predicate PriorRoomMismatch(entries: seq<Entry>, netid: string, room: Room, reading: Reading) {
    var prior := EntriesOf(entries, netid);
    prior != [] && (reading == AsWritten || prior[0].room != room)
  }

  /** EventEntryForm.clean (forms.py:81-180): the first failing check decides. */
  function CleanSignup(event: Event, entries: seq<Entry>, student: Student, req: SignupRequest, ctx: Context)
    : (r: Result<Admission, Rejection>)
    ensures r.Ok? <==> forall x :: !Fails(SignupChecks(event, entries, student, req, ctx), x)
    ensures r.Err? ==> Fails(SignupChecks(event, entries, student, req, ctx), r.error)
    ensures r.Err? ==> forall x :: Rank(x) < Rank(r.error) ==> !Fails(SignupChecks(event, entries, student, req, ctx), x)
    ensures r.Ok? ==> Some(r.value.room) == ChosenRoom(event, req)
    ensures r.Ok? ==> r.value.guest == SignupGuestName(event, student, req)
  {
    var room := ChosenRoom(event, req);
    match FirstFailure(SignupChecks(event, entries, student, req, ctx))
    case Some(x) => Err(x)
    case None => Ok(Admission(room.value, SignupGuestName(event, student, req)))
  }

  /** The check that fails first, in the order clean() tests them; None when all pass. */
  function FirstFailure(c: Checks): (r: Option<Rejection>)
    ensures r.Some? ==> Fails(c, r.value) && forall x :: Rank(x) < Rank(r.value) ==> !Fails(c, x)
    ensures r.None? ==> forall x :: !Fails(c, x)
  {
    if c.noRoom then Some(NoRoomChosen)
    else if c.notAttending then Some(NotAttending)
    else if c.rsvpBlocked then Some(RsvpNotAllowed)
    else if c.capReached then Some(ProspectiveCapReached)
    else if c.notOpen then Some(SignupNotOpen)
    else if c.closed then Some(SignupClosed)
    else if c.duplicate then Some(DuplicateSubmission)
    else if c.overGuestLimit then Some(GuestLimitReached)
    else if c.priorRoom then Some(PriorRoomDiffers)
    else if c.overflow then Some(RoomOverflow)
    else None
  }

  /** The outcome of each check of EventEntryForm.clean, true where the request fails it. */
  datatype Checks = Checks(
    noRoom: bool, notAttending: bool, rsvpBlocked: bool, capReached: bool, notOpen: bool,
    closed: bool, duplicate: bool, overGuestLimit: bool, priorRoom: bool, overflow: bool)

  /** Whether the check that refuses with x fails; rejections clean() never raises do not. */
  predicate Fails(c: Checks, x: Rejection) {
    match x
    case NoRoomChosen => c.noRoom
    case NotAttending => c.notAttending
    case RsvpNotAllowed => c.rsvpBlocked
    case ProspectiveCapReached => c.capReached
    case SignupNotOpen => c.notOpen
    case SignupClosed => c.closed
    case DuplicateSubmission => c.duplicate
    case GuestLimitReached => c.overGuestLimit
    case PriorRoomDiffers => c.priorRoom
    case RoomOverflow => c.overflow
    case _ => false
  }

  /** The position of x's check in the order clean() tests them. */
  function Rank(x: Rejection): nat {
    match x
    case NoRoomChosen => 0
    case NotAttending => 1
    case RsvpNotAllowed => 2
    case ProspectiveCapReached => 3
    case SignupNotOpen => 4
    case SignupClosed => 5
    case DuplicateSubmission => 6
    case GuestLimitReached => 7
    case PriorRoomDiffers => 8
    case RoomOverflow => 9
    case _ => 10
  }

  /** Each check of EventEntryForm.clean on this request; the room-dependent checks need a room. */
  function SignupChecks(event: Event, entries: seq<Entry>, student: Student, req: SignupRequest, ctx: Context)
    : Checks
  {
    var room := ChosenRoom(event, req);
    var guest := SignupGuestName(event, student, req);
    Checks(
      room.None?,
      !req.attending,
      student.allowRsvp == Some(false),
      student.kind == Prospective && ProspectiveCount(entries) + 1 > event.prospectiveLimit,
      NotYetOpen(event, student, ctx),
      ctx.now > event.signupEnd,
      HasPair(entries, student.netid, guest),
      GuestLimitBlocks(event, entries, student, guest, ctx.reading),
      room.Some? && PriorRoomMismatch(entries, student.netid, room.value, ctx.reading),
      room.Some? && PartyWeight(guest) + NumPeople(entries, room.value) > room.value.limit)
  }

  /** is_valid(): the field errors (a blank required answer), then clean(). */
  function ValidateSignup(event: Event, entries: seq<Entry>, student: Student, req: SignupRequest, ctx: Context)
    : (r: Result<Admission, Rejection>)
    ensures r.Ok? <==> !MissingRequired(event.questions, req.answers)
                       && forall x :: !Fails(SignupChecks(event, entries, student, req, ctx), x)
  {
    if MissingRequired(event.questions, req.answers) then Err(RequiredAnswerMissing)
    else CleanSignup(event, entries, student, req, ctx)
  }

  /**
   * An admitted signup arrived inside its window: at or after the opening
   * instant for the student's class, and at or before the close, which
   * applies to every class.
   */
  lemma AdmittedInsideWindow(event: Event, entries: seq<Entry>, student: Student, req: SignupRequest, ctx: Context)
    requires CleanSignup(event, entries, student, req, ctx).Ok?
    ensures OpenInstant(event, student, ctx) <= ctx.now <= event.signupEnd
  {
  }

  /**
   * When every other check passes, the signup window alone decides, and
   * both of its ends are admitted instants: only now < open and now > close
   * are refused.
   */
  lemma WindowDecides(event: Event, entries: seq<Entry>, student: Student, req: SignupRequest, ctx: Context)
    requires forall x :: x != SignupNotOpen && x != SignupClosed ==>
               !Fails(SignupChecks(event, entries, student, req, ctx), x)
    ensures CleanSignup(event, entries, student, req, ctx).Ok? <==>
              OpenInstant(event, student, ctx) <= ctx.now <= event.signupEnd
  {
  }

  /**
   * A Prospective is refused by the cap exactly when one more would exceed
   * prospective_limit, once the earlier checks pass; so a limit of 0 admits
   * none. Members are never refused by it.
   */
  lemma ProspectiveCapRule(event: Event, entries: seq<Entry>, student: Student, req: SignupRequest, ctx: Context)
    ensures student.kind != Prospective ==> CleanSignup(event, entries, student, req, ctx) != Err(ProspectiveCapReached)
    ensures student.kind == Prospective && event.prospectiveLimit <= 0 ==>
              !CleanSignup(event, entries, student, req, ctx).Ok?
    ensures (forall x :: Rank(x) < Rank(ProspectiveCapReached) ==> !Fails(SignupChecks(event, entries, student, req, ctx), x))
            ==> (CleanSignup(event, entries, student, req, ctx) == Err(ProspectiveCapReached) <==>
                   student.kind == Prospective && ProspectiveCount(entries) + 1 > event.prospectiveLimit)
  {
  }

  /**
   * The overflow rule: an admitted party fits (filling the room exactly to
   * its limit is allowed), and a party that does not fit is refused.
   */
  lemma RoomOverflowRule(event: Event, entries: seq<Entry>, student: Student, req: SignupRequest, ctx: Context, room: Room)
    requires ChosenRoom(event, req) == Some(room)
    ensures CleanSignup(event, entries, student, req, ctx).Ok? ==>
              PartyWeight(SignupGuestName(event, student, req)) + NumPeople(entries, room) <= room.limit
    ensures PartyWeight(SignupGuestName(event, student, req)) + NumPeople(entries, room) > room.limit ==>
              CleanSignup(event, entries, student, req, ctx).Err?
  {
  }

  // ---------------------------------------------------------------------
  // EventEntryForm.execute_form_information: the committed state

  /** The entries a filter keeps, in order (a queryset delete removes the rest). */
  function Keep(s: seq<Entry>, keep: Entry -> bool): (r: seq<Entry>)
    ensures |r| <= |s|
  {
    if s == [] then []
    else Keep(s[..|s| - 1], keep) + (if keep(s[|s| - 1]) then [s[|s| - 1]] else [])
  }

  /** What a filter keeps was there and passes the filter. */
  lemma {:induction false} KeepMembers(s: seq<Entry>, keep: Entry -> bool)
    ensures forall x :: x in Keep(s, keep) ==> x in s && keep(x)
    decreases |s|
  {
    if s != [] {
      var p := s[..|s| - 1];
      KeepMembers(p, keep);
      forall x | x in Keep(s, keep) ensures x in s && keep(x) {
        if x in Keep(p, keep) {
          assert x in p;
          var k :| 0 <= k < |p| && p[k] == x;
          assert s[k] == x;
        }
      }
    }
  }

  predicate NotGuestlessOf(netid: string, e: Entry) {
    !(Owns(e, netid) && e.guest == "")
  }

  /** forms.py:199-203: delete the student's entries that have no guest. */
  function RemoveGuestless(s: seq<Entry>, netid: string): seq<Entry> {
    Keep(s, e => NotGuestlessOf(netid, e))
  }

  /** Model.save(): overwrite the row with this primary key, or insert it at the end. */
  function Saved(s: seq<Entry>, e: Entry): (r: seq<Entry>)
    ensures |r| == if HasId(s, e.id) then |s| else |s| + 1
    ensures e in r
    ensures forall x :: x in r ==> x == e || x in s
    ensures forall k :: 0 <= k < |s| && s[k].id != e.id ==> r[k] == s[k]
  {
    if HasId(s, e.id) then
      var r := seq(|s|, k requires 0 <= k < |s| => if s[k].id == e.id then e else s[k]);
      assert e in r by {
        var k :| 0 <= k < |s| && s[k].id == e.id;
        assert r[k] == e;
      }
      r
    else s + [e]
  }

  /** The answers the form attaches: one per event question, "" when left blank. */
  function AnswersFor(questions: seq<Question>, texts: seq<string>): (a: seq<Answer>)
    ensures |a| == |questions|
    ensures forall i :: 0 <= i < |a| ==> a[i].question == questions[i].id
    ensures forall i :: 0 <= i < |a| && i < |texts| ==> a[i].text == texts[i]
    ensures forall i :: |texts| <= i < |a| ==> a[i].text == ""
    ensures forall i :: 0 <= i < |a| ==> (a[i].text == "" <==> i >= |texts| || texts[i] == "")
  {
    seq(|questions|, i requires 0 <= i < |questions| => Answer(questions[i].id, AnswerText(texts, i)))
  }

  function NewEntry(id: nat, student: Student, adm: Admission): Entry {
    Entry(id, student, adm.room, adm.guest, [])
  }

  /**
   * The entries after execute_form_information (forms.py:195-214): save the
   * new entry; if the student now has a guest entry, delete their guest-less
   * entries; attach the answers and save the new entry again (which
   * re-inserts it if the cleanup deleted it).
   */
  function ApplySignup(s: seq<Entry>, e: Entry, answers: seq<Answer>): (r: seq<Entry>)
    ensures e.(answers := answers) in r
    ensures |r| <= |s| + 1
    ensures forall x :: x in r ==> x == e.(answers := answers) || x in s
  {
    var s1 := s + [e];
    var s2 := if HasGuestEntry(s1, e.student.netid) then RemoveGuestless(s1, e.student.netid) else s1;
    KeepMembers(s1, d => NotGuestlessOf(e.student.netid, d));
    assert forall x :: x in s2 ==> x == e || x in s;
    assert HasId(s2, e.id) || |s2| <= |s| by {
      assert s1[|s|].id == e.id;
      if HasGuestEntry(s1, e.student.netid) {
        KeepAppend(s, e, d => NotGuestlessOf(e.student.netid, d));
        if NotGuestlessOf(e.student.netid, e) {
          assert s2[|s2| - 1].id == e.id;
        }
      }
    }
    Saved(s2, e.(answers := answers))
  }

  predicate FreshId(s: seq<Entry>, id: nat) {
    forall k :: 0 <= k < |s| ==> s[k].id != id
  }

  lemma {:induction false} KeepAppend(s: seq<Entry>, x: Entry, keep: Entry -> bool)
    ensures Keep(s + [x], keep) == Keep(s, keep) + (if keep(x) then [x] else [])
  {
    assert (s + [x])[..|s + [x]| - 1] == s;
  }

  lemma {:induction false} KeepNumPeople(s: seq<Entry>, keep: Entry -> bool, room: Room)
    ensures NumPeople(Keep(s, keep), room) <= NumPeople(s, room)
    decreases |s|
  {
    if s != [] {
      var p := s[..|s| - 1];
      var x := s[|s| - 1];
      KeepNumPeople(p, keep, room);
      if keep(x) {
        NumPeopleAppend(Keep(p, keep), [x], room);
        assert [x][..0] == [];
      } else {
        assert Keep(s, keep) == Keep(p, keep) + [];
        assert Keep(p, keep) + [] == Keep(p, keep);
      }
    }
  }

  lemma {:induction false} KeepProspectives(s: seq<Entry>, keep: Entry -> bool)
    ensures ProspectiveCount(Keep(s, keep)) <= ProspectiveCount(s)
    decreases |s|
  {
    if s != [] {
      var p := s[..|s| - 1];
      var x := s[|s| - 1];
      KeepProspectives(p, keep);
      if keep(x) {
        ProspectiveCountAppend(Keep(p, keep), [x]);
        assert [x][..0] == [];
      } else {
        assert Keep(s, keep) == Keep(p, keep) + [];
        assert Keep(p, keep) + [] == Keep(p, keep);
      }
    }
  }

  /** Filtering out what is not there changes nothing. */
  lemma {:induction false} KeepAll(s: seq<Entry>, keep: Entry -> bool)
    requires forall k :: 0 <= k < |s| ==> keep(s[k])
    ensures Keep(s, keep) == s
    decreases |s|
  {
    if s != [] {
      var p := s[..|s| - 1];
      KeepAll(p, keep);
      assert Keep(s, keep) == Keep(p, keep) + [s[|s| - 1]];
      assert p + [s[|s| - 1]] == s;
    }
  }

  /** A filter keeps apart what was apart: no two kept entries share a key that no two entries shared. */
  lemma {:induction false} KeepInjective<K>(s: seq<Entry>, keep: Entry -> bool, key: Entry -> K)
    requires forall i, j :: 0 <= i < j < |s| ==> key(s[i]) != key(s[j])
    ensures forall i, j :: 0 <= i < j < |Keep(s, keep)| ==> key(Keep(s, keep)[i]) != key(Keep(s, keep)[j])
    decreases |s|
  {
    if s != [] {
      var p := s[..|s| - 1];
      var x := s[|s| - 1];
      KeepInjective(p, keep, key);
      KeepMembers(p, keep);
      var q := Keep(p, keep);
      assert forall i, j :: 0 <= i < j < |q| ==> key(q[i]) != key(q[j]);
      if keep(x) {
        var t := q + [x];
        assert Keep(s, keep) == t;
        forall i, j | 0 <= i < j < |t| ensures key(t[i]) != key(t[j]) {
          if j == |q| {
            assert t[i] == q[i] && t[j] == x;
            assert q[i] in q;
            var m :| 0 <= m < |p| && p[m] == q[i];
            assert key(s[m]) != key(s[|s| - 1]);
          } else {
            assert t[i] == q[i] && t[j] == q[j];
          }
        }
      } else {
        assert Keep(s, keep) == q + [];
        assert q + [] == q;
      }
    }
  }

  /**
   * With a fresh primary key the commit is: the old entries (less the
   * student's guest-less ones when a guest entry exists) and the new entry,
   * with its answers, at the end.
   */
  lemma {:induction false} ApplySignupShape(s: seq<Entry>, e: Entry, answers: seq<Answer>)
    requires FreshId(s, e.id)
    ensures ApplySignup(s, e, answers)
         == (if HasGuestEntry(s + [e], e.student.netid) then RemoveGuestless(s, e.student.netid) else s)
            + [e.(answers := answers)]
  {
    var n := e.student.netid;
    var e' := e.(answers := answers);
    var s1 := s + [e];
    if HasGuestEntry(s1, n) {
      var x := RemoveGuestless(s, n);
      KeepAppend(s, e, d => NotGuestlessOf(n, d));
      KeepMembers(s, d => NotGuestlessOf(n, d));
      assert FreshId(x, e.id) by {
        forall k | 0 <= k < |x| ensures x[k].id != e.id {
          assert x[k] in x;
        }
      }
      if NotGuestlessOf(n, e) {
        var s2 := x + [e];
        assert RemoveGuestless(s1, n) == s2;
        assert HasId(s2, e.id) by { assert s2[|x|].id == e.id; }
        assert Saved(s2, e') == x + [e'];
      } else {
        assert RemoveGuestless(s1, n) == x + [];
        assert x + [] == x;
        assert !HasId(x, e.id);
      }
    } else {
      assert Saved(s1, e') == s + [e'] by {
        assert HasId(s1, e.id) by { assert s1[|s|].id == e.id; }
      }
    }
  }

  /** The capacity ledger after an admitted signup: no room of the event overflows. */
  lemma {:induction false} SignupKeepsCapacity(
    event: Event, s: seq<Entry>, student: Student, req: SignupRequest, ctx: Context, id: nat)
    requires WithinCapacity(event.rooms, s) && FreshId(s, id)
    requires ValidateSignup(event, s, student, req, ctx).Ok?
    ensures var adm := ValidateSignup(event, s, student, req, ctx).value;
            WithinCapacity(event.rooms, ApplySignup(s, NewEntry(id, student, adm), AnswersFor(event.questions, req.answers)))
  {
    var adm := ValidateSignup(event, s, student, req, ctx).value;
    var e := NewEntry(id, student, adm);
    var answers := AnswersFor(event.questions, req.answers);
    var e' := e.(answers := answers);
    ApplySignupShape(s, e, answers);
    var x := if HasGuestEntry(s + [e], student.netid) then RemoveGuestless(s, student.netid) else s;
    forall r | r in event.rooms
      ensures NumPeople(ApplySignup(s, e, answers), r) <= r.limit
    {
      NumPeopleAppend(x, [e'], r);
      assert [e'][..0] == [];
      KeepNumPeople(s, d => NotGuestlessOf(student.netid, d), r);
      assert Weight(e') == PartyWeight(adm.guest);
    }
  }

  /**
   * The prospective cap after an admitted signup: an admitted Prospective
   * leaves at most prospective_limit prospective entries, and a cap that
   * held before still holds.
   */
  lemma {:induction false} SignupKeepsProspectiveCap(
    event: Event, s: seq<Entry>, student: Student, req: SignupRequest, ctx: Context, id: nat)
    requires FreshId(s, id)
    requires ValidateSignup(event, s, student, req, ctx).Ok?
    ensures var adm := ValidateSignup(event, s, student, req, ctx).value;
            var after := ApplySignup(s, NewEntry(id, student, adm), AnswersFor(event.questions, req.answers));
            (student.kind == Prospective || ProspectiveCount(s) <= event.prospectiveLimit)
            ==> ProspectiveCount(after) <= event.prospectiveLimit
  {
    var adm := ValidateSignup(event, s, student, req, ctx).value;
    var e := NewEntry(id, student, adm);
    var answers := AnswersFor(event.questions, req.answers);
    var e' := e.(answers := answers);
    ApplySignupShape(s, e, answers);
    var x := if HasGuestEntry(s + [e], student.netid) then RemoveGuestless(s, student.netid) else s;
    ProspectiveCountAppend(x, [e']);
    assert [e'][..0] == [];
    KeepProspectives(s, d => NotGuestlessOf(student.netid, d));
    if student.kind != Prospective {
      assert ProspectiveCount([e']) == 0;
    }
  }

  /** A Prospective signs up without a guest: the guest fields are never offered to them. */
  lemma ProspectiveHasNoGuest(
    event: Event, s: seq<Entry>, student: Student, req: SignupRequest, ctx: Context)
    requires student.kind == Prospective
    requires ValidateSignup(event, s, student, req, ctx).Ok?
    ensures ValidateSignup(event, s, student, req, ctx).value.guest == ""
  {
  }

  /**
   * forms.py:197-203: once the student has a guest entry, none of their
   * earlier guest-less entries survives the commit.
   */
  lemma {:induction false} SignupCleansGuestless(s: seq<Entry>, e: Entry, answers: seq<Answer>)
    requires FreshId(s, e.id)
    requires HasGuestEntry(s + [e], e.student.netid)
    ensures var after := ApplySignup(s, e, answers);
            |after| >= 1 && after[|after| - 1] == e.(answers := answers)
            && forall k :: 0 <= k < |after| - 1 && Owns(after[k], e.student.netid) ==> after[k].guest != ""
  {
    ApplySignupShape(s, e, answers);
    var n := e.student.netid;
    var x := RemoveGuestless(s, n);
    var after := ApplySignup(s, e, answers);
    KeepMembers(s, d => NotGuestlessOf(n, d));
    forall k | 0 <= k < |after| - 1 && Owns(after[k], n)
      ensures after[k].guest != ""
    {
      assert after[k] == x[k];
      assert x[k] in x;
    }
  }

  /** The guests and entries of a student who has none yet. */
  lemma {:induction false} NoEntryNoGuestless(s: seq<Entry>, netid: string)
    requires !HasEntry(s, netid)
    ensures RemoveGuestless(s, netid) == s
  {
    KeepAll(s, d => NotGuestlessOf(netid, d));
  }

  /**
   * As written, the prior-room check admits a student only if they have no
   * entry yet, so a commit keeps at most one entry per student and event.
   */
  lemma {:induction false} AsWrittenSignupKeepsOneEntry(
    event: Event, s: seq<Entry>, student: Student, req: SignupRequest, ctx: Context, id: nat)
    requires ctx.reading == AsWritten && FreshId(s, id) && OneEntryPerStudent(s)
    requires ValidateSignup(event, s, student, req, ctx).Ok?
    ensures var adm := ValidateSignup(event, s, student, req, ctx).value;
            var after := ApplySignup(s, NewEntry(id, student, adm), AnswersFor(event.questions, req.answers));
            OneEntryPerStudent(after) && after == s + [after[|after| - 1]]
  {
    var adm := ValidateSignup(event, s, student, req, ctx).value;
    var e := NewEntry(id, student, adm);
    var answers := AnswersFor(event.questions, req.answers);
    assert !HasEntry(s, student.netid) by {
      if HasEntry(s, student.netid) {
        var k :| 0 <= k < |s| && Owns(s[k], student.netid);
        NoEntriesOfContra(s, student.netid, k);
        assert PriorRoomMismatch(s, student.netid, adm.room, AsWritten);
        assert false;
      }
    }
    ApplySignupShape(s, e, answers);
    NoEntryNoGuestless(s, student.netid);
  }

  lemma {:induction false} NoEntriesOfContra(s: seq<Entry>, netid: string, k: nat)
    requires k < |s| && Owns(s[k], netid)
    ensures EntriesOf(s, netid) != []
    decreases |s|
  {
    if k < |s| - 1 {
      NoEntriesOfContra(s[..|s| - 1], netid, k);
    }
  }

  // ---------------------------------------------------------------------
  // EntryDeletionForm

  /** EntryDeletionForm.clean (forms.py:261-264): only the entry's owner may delete it. */
  function CleanDeletion(entry: Entry, requester: Student): (r: Result<(), Rejection>)
    ensures r.Ok? <==> entry.student.netid == requester.netid
    ensures r.Err? ==> r.error == NotOwner
  {
    if !Owns(entry, requester.netid) then Err(NotOwner) else Ok(())
  }

  predicate NotId(id: nat, e: Entry) {
    e.id != id
  }

  /** The entries after entry.delete(); its answers go with it. */
  function WithoutId(s: seq<Entry>, id: nat): seq<Entry> {
    Keep(s, e => NotId(id, e))
  }

  /** Deleting an entry never overfills a room nor raises the prospective count. */
  lemma DeletionKeepsLimits(rooms: seq<Room>, s: seq<Entry>, id: nat)
    ensures WithinCapacity(rooms, s) ==> WithinCapacity(rooms, WithoutId(s, id))
    ensures ProspectiveCount(WithoutId(s, id)) <= ProspectiveCount(s)
    ensures !HasId(WithoutId(s, id), id)
  {
    forall r | r in rooms ensures NumPeople(WithoutId(s, id), r) <= NumPeople(s, r) {
      KeepNumPeople(s, e => NotId(id, e), r);
    }
    KeepProspectives(s, e => NotId(id, e));
    KeepMembers(s, e => NotId(id, e));
    var w := WithoutId(s, id);
    forall k | 0 <= k < |w| ensures w[k].id != id {
      assert w[k] in w;
    }
  }

  /** Primary keys are unique. */
  predicate DistinctIds(s: seq<Entry>) {
    forall i, j :: 0 <= i < j < |s| ==> s[i].id != s[j].id
  }

  /** With unique keys, entry.delete() removes exactly the entry at that key's position. */
  lemma {:induction false} WithoutIdAt(s: seq<Entry>, id: nat, k: nat)
    requires DistinctIds(s) && k < |s| && s[k].id == id
    ensures WithoutId(s, id) == s[..k] + s[k + 1..]
    decreases |s|
  {
    var p := s[..|s| - 1];
    var x := s[|s| - 1];
    if k == |s| - 1 {
      KeepAll(p, e => NotId(id, e));
      assert WithoutId(s, id) == p + [];
      assert p + [] == p && s[k + 1..] == [];
    } else {
      WithoutIdAt(p, id, k);
      assert x.id != id;
      assert WithoutId(s, id) == p[..k] + p[k + 1..] + [x];
      assert p[..k] == s[..k];
      assert p[k + 1..] + [x] == s[k + 1..];
    }
  }

  // ---------------------------------------------------------------------
  // ChangeAnswersForm

  /**
   * ChangeAnswersForm.is_valid(): field errors (a blank required answer),
   * then clean (forms.py:293-296), the ownership check.
   */
  function CleanAnswerChange(event: Event, entry: Entry, requester: Student, texts: seq<string>)
    : (r: Result<(), Rejection>)
    ensures r.Ok? <==> entry.student.netid == requester.netid && !MissingRequired(event.questions, texts)
    ensures entry.student.netid != requester.netid ==> r.Err?
  {
    if MissingRequired(event.questions, texts) then Err(RequiredAnswerMissing)
    else if !Owns(entry, requester.netid) then Err(NotOwner)
    else Ok(())
  }

  /** The inner loop of change_answers: every answer to question qid gets the new text. */
  function SetAnswerText(answers: seq<Answer>, qid: nat, text: string): (r: seq<Answer>)
    ensures |r| == |answers|
    ensures forall j :: 0 <= j < |r| ==> r[j].question == answers[j].question
  {
    seq(|answers|, j requires 0 <= j < |answers| =>
      if answers[j].question == qid then answers[j].(text := text) else answers[j])
  }

  /** change_answers (forms.py:300-306): the first n questions' texts, written in question order. */
  function RewriteAnswers(answers: seq<Answer>, questions: seq<Question>, texts: seq<string>, n: nat)
    : (r: seq<Answer>)
    requires n <= |questions|
    ensures |r| == |answers|
    ensures forall j :: 0 <= j < |r| ==> r[j].question == answers[j].question
    ensures forall j :: 0 <= j < |r| && (forall i :: 0 <= i < n ==> questions[i].id != answers[j].question)
              ==> r[j] == answers[j]
  {
    if n == 0 then answers
    else SetAnswerText(RewriteAnswers(answers, questions, texts, n - 1), questions[n - 1].id, AnswerText(texts, n - 1))
  }

  predicate DistinctQuestions(questions: seq<Question>) {
    forall i, j :: 0 <= i < j < |questions| ==> questions[i].id != questions[j].id
  }

  /**
   * change_answers creates no answer and re-labels none: each existing
   * answer keeps its question, and its text becomes the submitted text for
   * that question, or stays as it was if the question is not the event's.
   */
  lemma {:induction false} RewriteAnswersEffect(
    answers: seq<Answer>, questions: seq<Question>, texts: seq<string>, n: nat)
    requires n <= |questions| && DistinctQuestions(questions)
    ensures var a := RewriteAnswers(answers, questions, texts, n);
            |a| == |answers|
            && (forall j :: 0 <= j < |a| ==> a[j].question == answers[j].question)
            && (forall j, i :: 0 <= j < |a| && 0 <= i < n && questions[i].id == answers[j].question
                  ==> a[j].text == AnswerText(texts, i))
            && (forall j :: 0 <= j < |a| && (forall i :: 0 <= i < n ==> questions[i].id != answers[j].question)
                  ==> a[j] == answers[j])
  {
    if n > 0 {
      RewriteAnswersEffect(answers, questions, texts, n - 1);
    }
  }

  // ---------------------------------------------------------------------
  // ChangeGuestForm

  datatype GuestAction = RemoveGuest | SwapGuest | AddGuest

  /** The classified request: what to do and the guest name the entry ends with. */
  datatype GuestChange = GuestChange(action: GuestAction, name: string)

  /**
   * ChangeGuestForm.clean (forms.py:328-357): the ownership check, then
   * remove, duplicate, swap or add, in that order; an add must respect the
   * guest limit and find the entry's room below its limit.
   */
  function CleanGuestChange(
    event: Event, entries: seq<Entry>, entry: Entry, requester: Student,
    first: string, last: string, reading: Reading)
    : (r: Result<GuestChange, Rejection>)
    ensures entry.student.netid != requester.netid ==> r == Err(NotOwner)
    ensures r.Ok? ==> r.value.name == JoinedName(first, last)
    ensures r.Ok? && r.value.action == RemoveGuest <==>
              entry.student.netid == requester.netid && JoinedName(first, last) == ""
    ensures r.Ok? && r.value.action == RemoveGuest ==> r.value.name == ""
    ensures r.Ok? && r.value.action == SwapGuest ==> entry.guest != "" && r.value.name != ""
    ensures r.Ok? && r.value.action == AddGuest ==>
              entry.guest == "" && r.value.name != ""
              && !OverGuestLimit(event.guestLimit, GuestsOf(entries, requester.netid), reading)
              && NumPeople(entries, entry.room) < entry.room.limit
    ensures r == Err(GuestLimitReached) ==> OverGuestLimit(event.guestLimit, GuestsOf(entries, requester.netid), reading)
    ensures r == Err(RoomAtCapacity) ==> NumPeople(entries, entry.room) >= entry.room.limit
    ensures r == Err(GuestAlreadyPresent) ==>
              JoinedName(first, last) != "" && Lower(JoinedName(first, last)) == Strip(Lower(entry.guest))
    // and each case, once its earlier tests pass, is reached:
    ensures var name := JoinedName(first, last);
            entry.student.netid == requester.netid ==>
              (name == "" ==> r == Ok(GuestChange(RemoveGuest, "")))
              && (name != "" && Lower(name) == Strip(Lower(entry.guest)) ==> r == Err(GuestAlreadyPresent))
              && (name != "" && Lower(name) != Strip(Lower(entry.guest)) && entry.guest != "" ==>
                    r == Ok(GuestChange(SwapGuest, name)))
    ensures var name := JoinedName(first, last);
            var over := OverGuestLimit(event.guestLimit, GuestsOf(entries, requester.netid), reading);
            entry.student.netid == requester.netid && name != "" && entry.guest == "" ==>
              (r == Ok(GuestChange(AddGuest, name)) <==> !over && NumPeople(entries, entry.room) < entry.room.limit)
              && (over ==> r == Err(GuestLimitReached))
              && (!over && NumPeople(entries, entry.room) >= entry.room.limit ==> r == Err(RoomAtCapacity))
  {
    if !Owns(entry, requester.netid) then Err(NotOwner)
    else
      var name := JoinedName(first, last);
      if name == "" then Ok(GuestChange(RemoveGuest, name))
      else if Lower(name) == Strip(Lower(entry.guest)) then Err(GuestAlreadyPresent)
      else if entry.guest != "" then Ok(GuestChange(SwapGuest, name))
      else if OverGuestLimit(event.guestLimit, GuestsOf(entries, requester.netid), reading) then Err(GuestLimitReached)
      else if NumPeople(entries, entry.room) >= entry.room.limit then Err(RoomAtCapacity)
      else Ok(GuestChange(AddGuest, name))
  }

  /** remove_guest / swap_guest / add_guest: the entry's guest field becomes the new name. */
  function WithGuest(s: seq<Entry>, k: nat, name: string): seq<Entry>
    requires k < |s|
  {
    s[k := s[k].(guest := name)]
  }

  /** swap_guest's two saves leave what the second one wrote. */
  lemma WithGuestTwice(s: seq<Entry>, k: nat, first: string, second: string)
    requires k < |s|
    ensures WithGuest(WithGuest(s, k, first), k, second) == WithGuest(s, k, second)
  {
  }

  /** Replacing one entry moves its weight out of its old room and into the new one's. */
  lemma {:induction false} NumPeopleReplace(s: seq<Entry>, k: nat, x: Entry, room: Room)
    requires k < |s|
    ensures NumPeople(s[k := x], room) + (if s[k].room == room then Weight(s[k]) else 0)
         == NumPeople(s, room) + (if x.room == room then Weight(x) else 0)
  {
    var t := s[k := x];
    assert s == s[..k] + [s[k]] + s[k + 1..];
    assert t == s[..k] + [x] + s[k + 1..];
    NumPeopleAppend(s[..k] + [s[k]], s[k + 1..], room);
    NumPeopleAppend(s[..k], [s[k]], room);
    NumPeopleAppend(s[..k] + [x], s[k + 1..], room);
    NumPeopleAppend(s[..k], [x], room);
    assert [x][..0] == [] && [s[k]][..0] == [];
  }

  /** An admitted guest change never overfills a room of the event. */
  lemma {:induction false} GuestChangeKeepsCapacity(
    event: Event, s: seq<Entry>, k: nat, requester: Student, first: string, last: string, reading: Reading)
    requires k < |s| && WithinCapacity(event.rooms, s)
    requires CleanGuestChange(event, s, s[k], requester, first, last, reading).Ok?
    ensures var c := CleanGuestChange(event, s, s[k], requester, first, last, reading).value;
            WithinCapacity(event.rooms, WithGuest(s, k, c.name))
  {
    var c := CleanGuestChange(event, s, s[k], requester, first, last, reading).value;
    match c.action {
      case RemoveGuest => assert c.name == "";
      case SwapGuest => assert s[k].guest != "";
      case AddGuest => assert NumPeople(s, s[k].room) < s[k].room.limit;
    }
    WithGuestKeepsCapacity(event.rooms, s, k, c.name);
  }

  /**
   * Setting an entry's guest keeps every room within its limit when it adds
   * no person (the name is empty or replaces a guest) or its room has space.
   */
  lemma {:induction false} WithGuestKeepsCapacity(rooms: seq<Room>, s: seq<Entry>, k: nat, name: string)
    requires k < |s| && WithinCapacity(rooms, s)
    requires name == "" || s[k].guest != "" || NumPeople(s, s[k].room) < s[k].room.limit
    ensures WithinCapacity(rooms, WithGuest(s, k, name))
  {
    var x := s[k].(guest := name);
    forall r | r in rooms ensures NumPeople(WithGuest(s, k, name), r) <= r.limit {
      NumPeopleReplace(s, k, x, r);
    }
  }

  /** A swap is occupancy-neutral: every room holds as many people as before. */
  lemma {:induction false} GuestSwapIsNeutral(
    event: Event, s: seq<Entry>, k: nat, requester: Student, first: string, last: string, reading: Reading)
    requires k < |s|
    requires var r := CleanGuestChange(event, s, s[k], requester, first, last, reading);
             r.Ok? && r.value.action == SwapGuest
    ensures var c := CleanGuestChange(event, s, s[k], requester, first, last, reading).value;
            forall room :: NumPeople(WithGuest(s, k, c.name), room) == NumPeople(s, room)
  {
    var c := CleanGuestChange(event, s, s[k], requester, first, last, reading).value;
    forall room ensures NumPeople(WithGuest(s, k, c.name), room) == NumPeople(s, room) {
      NumPeopleReplace(s, k, s[k].(guest := c.name), room);
    }
  }

  /**
   * is_duplicate_entry (forms.py:362-365): re-submitting the entry's current
   * guest, in any capitalisation, is refused as a duplicate. The stored
   * guest name was stripped when it was saved, so strip() changes nothing.
   */
  lemma ResubmittedGuestIsDuplicate(
    event: Event, entries: seq<Entry>, entry: Entry, requester: Student,
    first: string, last: string, reading: Reading)
    requires entry.student.netid == requester.netid
    requires JoinedName(first, last) != "" && Lower(entry.guest) == Lower(JoinedName(first, last))
    ensures CleanGuestChange(event, entries, entry, requester, first, last, reading) == Err(GuestAlreadyPresent)
  {
    StripLowerOfStripped(JoinedName(first, last));
    assert Strip(Lower(entry.guest)) == Lower(JoinedName(first, last));
  }

  /**
   * ChangeGuestForm.clean (forms.py:328-357) never tests the student's
   * class: a Prospective, who never gets guest fields at signup, is
   * classified exactly as a member would be.
   */
  lemma GuestChangeIgnoresClass(
    event: Event, entries: seq<Entry>, entry: Entry, requester: Student,
    first: string, last: string, reading: Reading, kind: Kind)
    ensures CleanGuestChange(event, entries, entry, requester.(kind := kind), first, last, reading)
         == CleanGuestChange(event, entries, entry, requester, first, last, reading)
  {
  }

  // ---------------------------------------------------------------------
  // ChangeRoomForm

  /** "%s %s" % (first_name, last_name): the student's own line in additional_people. */
  function FullName(student: Student): string {
    student.firstName + " " + student.lastName
  }

  /**
   * The occupancy the room test adds the party to. As written it is the
   * target's whole count, which already holds the party when the student
   * asks for the room they are in.
   */
  function TargetOccupancy(entries: seq<Entry>, netid: string, target: Room, reading: Reading): (n: nat)
    ensures reading == AsWritten ==> n == NumPeople(entries, target)
    ensures reading == Intended ==> n + NumPeople(EntriesOf(entries, netid), target) == NumPeople(entries, target)
    ensures n <= NumPeople(entries, target)
  {
    NumPeopleSplit(entries, netid, target);
    match reading
    case AsWritten => NumPeople(entries, target)
    case Intended => NumPeople(Others(entries, netid), target)
  }

  /**
   * ChangeRoomForm.clean (forms.py:436-453): the ownership check, then
   * len(additional_people) plus the target's occupancy against its limit.
   */
  function CleanRoomChange(entries: seq<Entry>, entry: Entry, requester: Student, target: Room, reading: Reading)
    : (r: Result<(), Rejection>)
    ensures entry.student.netid != requester.netid ==> r == Err(NotOwner)
    ensures r.Ok? <==>
              (entry.student.netid == requester.netid
               && 1 + |GuestsOf(entries, requester.netid)| + TargetOccupancy(entries, requester.netid, target, reading)
                  <= target.limit)
  {
    if !Owns(entry, requester.netid) then Err(NotOwner)
    else if 1 + |GuestsOf(entries, requester.netid)| + TargetOccupancy(entries, requester.netid, target, reading)
            > target.limit then Err(RoomOverflow)
    else Ok(())
  }

  /** change_room (forms.py:469-472): every entry of the student is reassigned to the target. */
  function MoveStudent(s: seq<Entry>, netid: string, target: Room): (r: seq<Entry>)
    ensures |r| == |s|
    ensures forall k :: 0 <= k < |s| && Owns(s[k], netid) ==> r[k] == s[k].(room := target)
    ensures forall k :: 0 <= k < |s| && !Owns(s[k], netid) ==> r[k] == s[k]
    ensures SameStudents(s, r)
  {
    seq(|s|, k requires 0 <= k < |s| => if Owns(s[k], netid) then s[k].(room := target) else s[k])
  }

  lemma {:induction false} MoveStudentPrefix(s: seq<Entry>, netid: string, target: Room)
    requires s != []
    ensures MoveStudent(s, netid, target)[..|s| - 1] == MoveStudent(s[..|s| - 1], netid, target)
  {
  }

  /** Moving never touches anyone else's entries. */
  lemma {:induction false} MoveKeepsOthers(s: seq<Entry>, netid: string, target: Room)
    ensures Others(MoveStudent(s, netid, target), netid) == Others(s, netid)
    decreases |s|
  {
    if s != [] {
      MoveStudentPrefix(s, netid, target);
      MoveKeepsOthers(s[..|s| - 1], netid, target);
    }
  }

  /** Room changes are occupancy-neutral over the event: nobody is added or dropped. */
  lemma {:induction false} RoomChangeIsNeutral(s: seq<Entry>, netid: string, target: Room)
    ensures TotalPeople(MoveStudent(s, netid, target)) == TotalPeople(s)
    decreases |s|
  {
    if s != [] {
      MoveStudentPrefix(s, netid, target);
      RoomChangeIsNeutral(s[..|s| - 1], netid, target);
    }
  }

  /**
   * With one entry per student (which the as-written signup keeps), an
   * admitted room change never overfills a room of the event.
   */
  lemma {:induction false} RoomChangeKeepsCapacity(
    rooms: seq<Room>, s: seq<Entry>, k: nat, requester: Student, target: Room, reading: Reading)
    requires k < |s| && WithinCapacity(rooms, s) && OneEntryPerStudent(s) && target in rooms
    requires CleanRoomChange(s, s[k], requester, target, reading).Ok?
    ensures WithinCapacity(rooms, MoveStudent(s, requester.netid, target))
  {
    var n := requester.netid;
    var after := MoveStudent(s, n, target);
    EntriesOfOne(s, n, k);
    assert OneEntryPerStudent(after);
    EntriesOfOne(after, n, k);
    MoveKeepsOthers(s, n, target);
    PartyTotal(s, n);
    assert TotalPeople([s[k]]) == Weight(s[k]) by { assert [s[k]][..0] == []; }
    forall r | r in rooms ensures NumPeople(after, r) <= r.limit {
      NumPeopleSplit(s, n, r);
      NumPeopleSplit(after, n, r);
      assert NumPeople([after[k]], r) == (if r == target then Weight(s[k]) else 0) by {
        assert [after[k]][..0] == [];
      }
    }
  }
}
