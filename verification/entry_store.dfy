/**
 * The entry store of one event and the commit steps of the five forms.
 * Each method first takes its form's decision from admission.dfy and, only
 * when it admits, changes the stored entries; its postcondition ties the
 * new entries to the commit specified there, and the capacity lemmas carry
 * the room limits across.
 */
module EntryStore {
  import opened Wrappers
  import opened EventModel
  import opened Admission

  /**
   * What the database guarantees of a stored event: unique primary keys
   * for entries and for the event's rooms, every entry in one of the
   * event's rooms, and every key below the next one to be handed out.
   */
  predicate Consistent(event: Event, s: seq<Entry>, nextId: nat) {
    DistinctIds(s) && DistinctRoomIds(event.rooms)
    && forall k :: 0 <= k < |s| ==> s[k].id < nextId && s[k].room in event.rooms
  }

  /**
   * The ledger the forms' checks are there to protect: no room over its
   * limit, prospective entries within prospective_limit, and (as the
   * prior-room check is written) one entry per student.
   */
  predicate SafeLedger(event: Event, s: seq<Entry>) {
    WithinCapacity(event.rooms, s) && ProspectiveCount(s) <= event.prospectiveLimit && OneEntryPerStudent(s)
  }

  /** The event's entry_event_association, with the next primary key to hand out. */
  class EventEntries {
    const event: Event
    var entries: seq<Entry>
    var nextId: nat

    ghost predicate Valid()
      reads this
    {
      Consistent(event, entries, nextId)
    }

    ghost predicate Safe()
      reads this
    {
      SafeLedger(event, entries)
    }

    constructor (event: Event, entries: seq<Entry>, nextId: nat)
      requires Consistent(event, entries, nextId)
      ensures Valid()
      ensures this.event == event && this.entries == entries && this.nextId == nextId
    {
      this.event := event;
      this.entries := entries;
      this.nextId := nextId;
    }

    /**
     * EventEntryForm.execute_form_information (forms.py:190-214): commit an
     * admitted signup; a rejected one writes nothing.
     */
    method Signup(student: Student, req: SignupRequest, ctx: Context) returns (r: Result<Admission, Rejection>)
      requires Valid()
      modifies this
      ensures Valid()
      ensures r == ValidateSignup(event, old(entries), student, req, ctx)
      ensures r.Err? ==> entries == old(entries) && nextId == old(nextId)
      ensures r.Ok? ==>
                entries == ApplySignup(old(entries), NewEntry(old(nextId), student, r.value),
                                       AnswersFor(event.questions, req.answers))
      ensures old(WithinCapacity(event.rooms, entries)) ==> WithinCapacity(event.rooms, entries)
      ensures old(ProspectiveCount(entries)) <= event.prospectiveLimit ==>
                ProspectiveCount(entries) <= event.prospectiveLimit
      ensures ctx.reading == AsWritten && old(OneEntryPerStudent(entries)) ==> OneEntryPerStudent(entries)
      ensures ctx.reading == AsWritten && old(Safe()) ==> Safe()
    {
      r := ValidateSignup(event, entries, student, req, ctx);
      if r.Err? {
        return;
      }
      ghost var before := entries;
      var e := NewEntry(nextId, student, r.value);
      assert FreshId(before, e.id);
      assert e.room in event.rooms by {
        assert CleanSignup(event, before, student, req, ctx).Ok?;
      }
      if WithinCapacity(event.rooms, before) {
        SignupKeepsCapacity(event, before, student, req, ctx, e.id);
      }
      SignupKeepsProspectiveCap(event, before, student, req, ctx, e.id);
      if ctx.reading == AsWritten && OneEntryPerStudent(before) {
        AsWrittenSignupKeepsOneEntry(event, before, student, req, ctx, e.id);
      }
      var answers := CollectAnswers(event.questions, req.answers);
      Commit(e, answers);
    }

    /**
     * forms.py:195-214: save the new entry, drop the student's guest-less
     * entries once one of theirs has a guest, then save it with its answers.
     */
    method Commit(e: Entry, answers: seq<Answer>)
      requires Valid() && e.id == nextId && e.room in event.rooms
      modifies this
      ensures Valid() && nextId == old(nextId) + 1
      ensures entries == ApplySignup(old(entries), e, answers)
    {
      ghost var before := entries;
      var netid := e.student.netid;
      assert FreshId(before, e.id);
      nextId := nextId + 1;
      entries := entries + [e];
      if HasGuestEntry(entries, netid) {
        DropGuestless(netid);
      }
      entries := Saved(entries, e.(answers := answers));
      CommitKeepsKeys(event, before, e, answers);
    }

    /** forms.py:197-203: delete the student's entries that have no guest, keeping the rest in order. */
    method DropGuestless(netid: string)
      modifies this
      ensures entries == RemoveGuestless(old(entries), netid) && nextId == old(nextId)
      ensures old(Safe()) ==> Safe()
    {
      var all := entries;
      var kept: seq<Entry> := [];
      var i := 0;
      while i < |all|
        invariant 0 <= i <= |all|
        invariant kept == RemoveGuestless(all[..i], netid)
      {
        if NotGuestlessOf(netid, all[i]) {
          kept := kept + [all[i]];
        }
        assert all[..i + 1][..i] == all[..i];
        i := i + 1;
      }
      assert all[..|all|] == all;
      entries := kept;
      if SafeLedger(event, all) {
        KeepKeepsLedger(event, all, d => NotGuestlessOf(netid, d));
      }
    }

    /** EntryDeletionForm.delete_entry (forms.py:266-268). */
    method Delete(id: nat, requester: Student) returns (r: Result<(), Rejection>)
      requires Valid() && HasId(entries, id)
      modifies this
      ensures Valid() && nextId == old(nextId)
      ensures r == CleanDeletion(old(entries)[IndexOfId(old(entries), id)], requester)
      ensures r.Ok? ==> entries == WithoutId(old(entries), id)
      ensures var k := IndexOfId(old(entries), id);
              r.Ok? ==> entries == old(entries)[..k] + old(entries)[k + 1..]
      ensures r.Err? ==> entries == old(entries)
      ensures old(WithinCapacity(event.rooms, entries)) ==> WithinCapacity(event.rooms, entries)
      ensures old(Safe()) ==> Safe()
    {
      var k := IndexOfId(entries, id);
      r := CleanDeletion(entries[k], requester);
      if r.Ok? {
        Remove(id, k);
      }
    }

    /** entry.delete(): the row with this key goes, the others stay in order. */
    method Remove(id: nat, k: nat)
      requires Valid() && k < |entries| && entries[k].id == id
      modifies this
      ensures Valid() && nextId == old(nextId)
      ensures entries == WithoutId(old(entries), id) == old(entries)[..k] + old(entries)[k + 1..]
      ensures old(WithinCapacity(event.rooms, entries)) ==> WithinCapacity(event.rooms, entries)
      ensures old(Safe()) ==> Safe()
    {
      ghost var before := entries;
      entries := WithoutId(entries, id);
      DeletionKeepsLimits(event.rooms, before, id);
      WithoutIdAt(before, id, k);
      KeepKeepsKeys(event, before, e => NotId(id, e), nextId);
      if SafeLedger(event, before) {
        KeepKeepsLedger(event, before, e => NotId(id, e));
      }
    }

    /** ChangeAnswersForm.change_answers (forms.py:298-306), behind the form's validation. */
    method ChangeAnswers(id: nat, requester: Student, texts: seq<string>) returns (r: Result<(), Rejection>)
      requires Valid() && HasId(entries, id)
      modifies this
      ensures Valid() && nextId == old(nextId)
      ensures var k := IndexOfId(old(entries), id);
              r == CleanAnswerChange(event, old(entries)[k], requester, texts)
              && (r.Ok? ==> entries == old(entries)[k := old(entries)[k].(answers :=
                               RewriteAnswers(old(entries)[k].answers, event.questions, texts, |event.questions|))])
              && (r.Err? ==> entries == old(entries))
      ensures old(Safe()) ==> Safe()
    {
      var k := IndexOfId(entries, id);
      var entry := entries[k];
      r := CleanAnswerChange(event, entry, requester, texts);
      if r.Err? {
        return;
      }
      var answers := entry.answers;
      for i := 0 to |event.questions|
        invariant answers == RewriteAnswers(entry.answers, event.questions, texts, i)
      {
        var q := event.questions[i];
        var text := AnswerText(texts, i);
        ghost var prev := answers;
        for j := 0 to |answers|
          invariant |answers| == |prev|
          invariant forall m :: 0 <= m < j ==>
                      answers[m] == if prev[m].question == q.id then prev[m].(text := text) else prev[m]
          invariant forall m :: j <= m < |answers| ==> answers[m] == prev[m]
        {
          if answers[j].question == q.id {
            answers := answers[j := answers[j].(text := text)];
          }
        }
        assert answers == SetAnswerText(prev, q.id, text);
      }
      SetAnswers(k, answers);
    }

    /** entry.save() after the answers are rewritten: only that entry's answers change. */
    method SetAnswers(k: nat, answers: seq<Answer>)
      requires Valid() && k < |entries|
      modifies this
      ensures Valid() && nextId == old(nextId)
      ensures entries == old(entries)[k := old(entries)[k].(answers := answers)]
      ensures old(Safe()) ==> Safe()
    {
      ghost var before := entries;
      var x := entries[k].(answers := answers);
      entries := entries[k := x];
      ReplaceKeepsKeys(event, before, k, x, nextId);
      if SafeLedger(event, before) {
        ReplaceKeepsLedger(event, before, k, x);
      }
    }

    /** ChangeGuestForm.change_guest (forms.py:396-417): remove, swap or add, then save. */
    method ChangeGuest(id: nat, requester: Student, first: string, last: string, reading: Reading)
      returns (r: Result<GuestChange, Rejection>)
      requires Valid() && HasId(entries, id)
      modifies this
      ensures Valid() && nextId == old(nextId)
      ensures var k := IndexOfId(old(entries), id);
              r == CleanGuestChange(event, old(entries), old(entries)[k], requester, first, last, reading)
              && (r.Ok? ==> entries == WithGuest(old(entries), k, r.value.name))
              && (r.Err? ==> entries == old(entries))
      ensures old(WithinCapacity(event.rooms, entries)) ==> WithinCapacity(event.rooms, entries)
      ensures old(Safe()) ==> Safe()
    {
      var k := IndexOfId(entries, id);
      r := CleanGuestChange(event, entries, entries[k], requester, first, last, reading);
      if r.Err? {
        return;
      }
      ApplyGuestChange(k, r.value);
    }

    /** change_guest's dispatch on the classified request (forms.py:409-417). */
    method ApplyGuestChange(k: nat, change: GuestChange)
      requires Valid() && k < |entries|
      requires change.action == SwapGuest ==> entries[k].guest != ""
      modifies this
      ensures Valid() && nextId == old(nextId)
      ensures entries == WithGuest(old(entries), k, if change.action == RemoveGuest then "" else change.name)
      ensures change.action == AddGuest ==> old(NumPeople(entries, entries[k].room) < entries[k].room.limit) ==>
                (old(WithinCapacity(event.rooms, entries)) ==> WithinCapacity(event.rooms, entries))
                && (old(Safe()) ==> Safe())
      ensures change.action != AddGuest ==>
                (old(WithinCapacity(event.rooms, entries)) ==> WithinCapacity(event.rooms, entries))
                && (old(Safe()) ==> Safe())
    {
      ghost var before := entries;
      ghost var name := if change.action == RemoveGuest then "" else change.name;
      match change.action {
        case RemoveGuest =>
          entries := WithGuest(entries, k, "");
        case SwapGuest =>
          entries := WithGuest(entries, k, "");
          entries := WithGuest(entries, k, change.name);
          WithGuestTwice(before, k, "", change.name);
        case AddGuest =>
          entries := WithGuest(entries, k, change.name);
      }
      ReplaceKeepsKeys(event, before, k, before[k].(guest := name), nextId);
      SameStudentsLedger(before, entries);
      if WithinCapacity(event.rooms, before)
         && (change.action != AddGuest || NumPeople(before, before[k].room) < before[k].room.limit) {
        WithGuestKeepsCapacity(event.rooms, before, k, name);
      }
    }

    /** ChangeRoomForm.additional_people (forms.py:455-464): the student, then each guest they brought. */
    method AdditionalPeople(student: Student) returns (people: seq<string>)
      ensures people == [FullName(student)] + GuestsOf(entries, student.netid)
      ensures |people| == 1 + |GuestsOf(entries, student.netid)|
    {
      people := [FullName(student)];
      var i := 0;
      while i < |entries|
        invariant 0 <= i <= |entries|
        invariant people == [FullName(student)] + GuestsOf(entries[..i], student.netid)
      {
        var e := entries[i];
        if Owns(e, student.netid) && e.guest != "" {
          people := people + [e.guest];
        }
        assert entries[..i + 1][..i] == entries[..i];
        i := i + 1;
      }
      assert entries[..|entries|] == entries;
    }

    /** ChangeRoomForm.clean and change_room (forms.py:436-472). */
    method ChangeRoom(id: nat, requester: Student, target: Room, reading: Reading) returns (r: Result<(), Rejection>)
      requires Valid() && HasId(entries, id) && target in event.rooms
      modifies this
      ensures Valid() && nextId == old(nextId)
      ensures r == CleanRoomChange(old(entries), old(entries)[IndexOfId(old(entries), id)], requester, target, reading)
      ensures r.Ok? ==> entries == MoveStudent(old(entries), requester.netid, target)
      ensures r.Err? ==> entries == old(entries)
      ensures TotalPeople(entries) == old(TotalPeople(entries))
      ensures old(WithinCapacity(event.rooms, entries) && OneEntryPerStudent(entries)) ==>
                WithinCapacity(event.rooms, entries)
      ensures old(Safe()) ==> Safe()
    {
      var k := IndexOfId(entries, id);
      if !Owns(entries[k], requester.netid) {
        r := Err(NotOwner);
      } else {
        var people := AdditionalPeople(requester);
        r := if |people| + TargetOccupancy(entries, requester.netid, target, reading) > target.limit
             then Err(RoomOverflow) else Ok(());
      }
      if r.Ok? {
        ghost var before := entries;
        MoveEntries(requester.netid, target);
        RoomChangeIsNeutral(before, requester.netid, target);
        SameStudentsLedger(before, entries);
        if WithinCapacity(event.rooms, before) && OneEntryPerStudent(before) {
          RoomChangeKeepsCapacity(event.rooms, before, k, requester, target, reading);
        }
      }
    }

    /** The loop of change_room: reassign each of the student's entries, one save at a time. */
    method MoveEntries(netid: string, target: Room)
      requires Valid() && target in event.rooms
      modifies this
      ensures Valid() && nextId == old(nextId)
      ensures entries == MoveStudent(old(entries), netid, target)
    {
      var i := 0;
      while i < |entries|
        invariant 0 <= i <= |entries| && |entries| == |old(entries)|
        invariant forall m :: 0 <= m < i ==>
                    entries[m] == if Owns(old(entries)[m], netid) then old(entries)[m].(room := target) else old(entries)[m]
        invariant forall m :: i <= m < |entries| ==> entries[m] == old(entries)[m]
        invariant nextId == old(nextId)
      {
        if Owns(entries[i], netid) {
          entries := entries[i := entries[i].(room := target)];
        }
        i := i + 1;
      }
      assert forall m :: 0 <= m < |entries| ==> entries[m].id == old(entries)[m].id;
    }
  }

  /** Filtering entries out keeps keys unique and every entry in an event room. */
  lemma KeepKeepsKeys(event: Event, s: seq<Entry>, keep: Entry -> bool, nextId: nat)
    requires Consistent(event, s, nextId)
    ensures Consistent(event, Keep(s, keep), nextId)
  {
    KeepInjective(s, keep, (e: Entry) => e.id);
    KeepMembers(s, keep);
    var t := Keep(s, keep);
    forall k | 0 <= k < |t| ensures t[k].id < nextId && t[k].room in event.rooms {
      assert t[k] in t;
      var m :| 0 <= m < |s| && s[m] == t[k];
    }
  }

  /** Filtering entries out (a queryset delete) keeps the ledger safe. */
  lemma KeepKeepsLedger(event: Event, s: seq<Entry>, keep: Entry -> bool)
    requires SafeLedger(event, s)
    ensures SafeLedger(event, Keep(s, keep))
  {
    forall r | r in event.rooms ensures NumPeople(Keep(s, keep), r) <= r.limit {
      KeepNumPeople(s, keep, r);
    }
    KeepProspectives(s, keep);
    KeepInjective(s, keep, (e: Entry) => e.student.netid);
  }

  /** Rewriting one entry in place, with its key and room kept, keeps the store consistent. */
  lemma ReplaceKeepsKeys(event: Event, s: seq<Entry>, k: nat, x: Entry, nextId: nat)
    requires Consistent(event, s, nextId) && k < |s| && x.id == s[k].id && x.room == s[k].room
    ensures Consistent(event, s[k := x], nextId)
  {
    var t := s[k := x];
    forall i, j | 0 <= i < j < |t| ensures t[i].id != t[j].id {
      assert t[i].id == s[i].id && t[j].id == s[j].id;
    }
  }

  /** Rewriting one entry's answers keeps every room's count, the prospectives and the students. */
  lemma ReplaceKeepsLedger(event: Event, s: seq<Entry>, k: nat, x: Entry)
    requires SafeLedger(event, s) && k < |s|
    requires x.room == s[k].room && x.guest == s[k].guest && x.student == s[k].student
    ensures SafeLedger(event, s[k := x])
  {
    forall r | r in event.rooms ensures NumPeople(s[k := x], r) == NumPeople(s, r) {
      NumPeopleReplace(s, k, x, r);
    }
    SameStudentsLedger(s, s[k := x]);
  }

  /** The signup commit keeps keys unique and every entry in an event room, and uses up its key. */
  lemma CommitKeepsKeys(event: Event, s: seq<Entry>, e: Entry, answers: seq<Answer>)
    requires Consistent(event, s, e.id) && e.room in event.rooms
    ensures Consistent(event, ApplySignup(s, e, answers), e.id + 1)
  {
    var n := e.student.netid;
    ApplySignupShape(s, e, answers);
    if HasGuestEntry(s + [e], n) {
      KeepKeepsKeys(event, s, d => NotGuestlessOf(n, d), e.id);
      AppendKeepsKeys(event, RemoveGuestless(s, n), e.(answers := answers));
    } else {
      AppendKeepsKeys(event, s, e.(answers := answers));
    }
  }

  /** Appending an entry in an event room under the next key uses that key up. */
  lemma AppendKeepsKeys(event: Event, s: seq<Entry>, e: Entry)
    requires Consistent(event, s, e.id) && e.room in event.rooms
    ensures Consistent(event, s + [e], e.id + 1)
  {
    var t := s + [e];
    forall i, j | 0 <= i < j < |t| ensures t[i].id != t[j].id {
      if j < |s| {
        assert t[i] == s[i] && t[j] == s[j];
      } else {
        assert t[i] == s[i];
      }
    }
  }

  /** forms.py:205-213: one Answer per question, in question order, blank for an unanswered one. */
  method CollectAnswers(questions: seq<Question>, texts: seq<string>) returns (answers: seq<Answer>)
    ensures answers == AnswersFor(questions, texts)
  {
    answers := [];
    for i := 0 to |questions|
      invariant answers == AnswersFor(questions, texts)[..i]
    {
      var text := if i < |texts| && texts[i] != "" then texts[i] else "";
      answers := answers + [Answer(questions[i].id, text)];
    }
    assert answers == AnswersFor(questions, texts)[..|questions|];
  }
}
