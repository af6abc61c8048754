/**
 * The records the signup forms read and write, and the capacity ledger
 * derived from them: how many people sit in a room, which guests a student
 * has brought, how many prospectives have signed up.
 *
 * Everything is scoped to one event: an entry sequence is the event's
 * entry_event_association, in storage order.
 */
module EventModel {
  import opened Wrappers

  /**
   * The concrete student class, as the forms test it with __class__.__name__.
   * Only Prospective is ever tested: a member's signup window goes by the
   * class year, so the Senior, Junior and Sophomore tags are never read.
   */
  datatype Kind = Senior | Junior | Sophomore | Prospective

  /**
   * A signed-in student. `year` is the class year (read only for members);
   * `allowRsvp` is None when the student's class has no allow_rsvp attribute.
   */
  datatype Student = Student(
    netid: string,
    kind: Kind,
    year: int,
    allowRsvp: Option<bool>,
    firstName: string,
    lastName: string)

  datatype Room = Room(id: nat, name: string, limit: int)

  datatype Question = Question(id: nat, required: bool)

  datatype Answer = Answer(question: nat, text: string)

  /** One signup: a student, a room, at most one guest ("" for none), the answers. */
  datatype Entry = Entry(id: nat, student: Student, room: Room, guest: string, answers: seq<Answer>)

  /**
   * The event: its rooms and questions, its limits, and its signup instants
   * (each date already combined with the shared signup time of day, in one
   * reference time zone).
   */
  datatype Event = Event(
    rooms: seq<Room>,
    questions: seq<Question>,
    guestLimit: int,
    prospectiveLimit: int,
    seniorStart: int,
    juniorStart: int,
    sophomoreStart: int,
    prospectiveStart: int,
    signupEnd: int)

  /** People a party brings: the student, plus the guest if named (num_additional_people). */
  function PartyWeight(guest: string): nat {
    if guest != "" then 2 else 1
  }

  /** People an entry puts in its room. */
  function Weight(e: Entry): nat {
    PartyWeight(e.guest)
  }

  /** Room.num_people(): entrants in the room plus their non-empty guests. */
  function NumPeople(s: seq<Entry>, room: Room): nat {
    if s == [] then 0
    else NumPeople(s[..|s| - 1], room) + (if s[|s| - 1].room == room then Weight(s[|s| - 1]) else 0)
  }

  /** Everybody the event's entries bring, over all rooms. */
  function TotalPeople(s: seq<Entry>): nat {
    if s == [] then 0 else TotalPeople(s[..|s| - 1]) + Weight(s[|s| - 1])
  }

  predicate Owns(e: Entry, netid: string) {
    e.student.netid == netid
  }

  /** The student's entries (filter(student__netid=...)), in storage order. */
  function EntriesOf(s: seq<Entry>, netid: string): seq<Entry> {
    if s == [] then []
    else EntriesOf(s[..|s| - 1], netid) + (if Owns(s[|s| - 1], netid) then [s[|s| - 1]] else [])
  }

  /** Every entry that is not the student's. */
  function Others(s: seq<Entry>, netid: string): seq<Entry> {
    if s == [] then []
    else Others(s[..|s| - 1], netid) + (if Owns(s[|s| - 1], netid) then [] else [s[|s| - 1]])
  }

  /** Event.get_guests(student): the non-empty guests on the student's entries. */
  function GuestsOf(s: seq<Entry>, netid: string): seq<string> {
    if s == [] then []
    else
      var e := s[|s| - 1];
      GuestsOf(s[..|s| - 1], netid) + (if Owns(e, netid) && e.guest != "" then [e.guest] else [])
  }

  /** The positions of the entries whose student is a Prospective. */
  function ProspectiveIndices(s: seq<Entry>): set<int> {
    set k | 0 <= k < |s| && s[k].student.kind == Prospective
  }

  /** Entries whose student is a Prospective (one per entry, as the form counts them). */
  function ProspectiveCount(s: seq<Entry>): (r: nat)
    ensures r == |ProspectiveIndices(s)|
    ensures r <= |s|
    ensures r == 0 <==> forall k :: 0 <= k < |s| ==> s[k].student.kind != Prospective
  {
    if s == [] then 0
    else
      var p := s[..|s| - 1];
      var last := |s| - 1;
      assert last !in ProspectiveIndices(p);
      assert ProspectiveIndices(s)
          == ProspectiveIndices(p) + (if s[last].student.kind == Prospective then {last} else {});
      ProspectiveCount(p) + (if s[last].student.kind == Prospective then 1 else 0)
  }

  /** Entries of the same students at the same positions. */
  predicate SameStudents(s: seq<Entry>, t: seq<Entry>) {
    |s| == |t| && forall k :: 0 <= k < |s| ==> s[k].student == t[k].student
  }

  /**
   * A rewrite that leaves every entry's student in place (new answers, a new
   * guest, a new room) keeps the prospective count and one entry per student.
   */
  lemma {:induction false} SameStudentsLedger(s: seq<Entry>, t: seq<Entry>)
    requires SameStudents(s, t)
    ensures ProspectiveCount(t) == ProspectiveCount(s)
    ensures OneEntryPerStudent(t) <==> OneEntryPerStudent(s)
    decreases |s|
  {
    if s != [] {
      SameStudentsLedger(s[..|s| - 1], t[..|t| - 1]);
    }
  }

  predicate HasEntry(s: seq<Entry>, netid: string) {
    exists k :: 0 <= k < |s| && Owns(s[k], netid)
  }

  /** The student has an entry with a non-empty guest. */
  predicate HasGuestEntry(s: seq<Entry>, netid: string) {
    exists k :: 0 <= k < |s| && Owns(s[k], netid) && s[k].guest != ""
  }

  /** An entry with exactly this (student, guest) pair exists. */
  predicate HasPair(s: seq<Entry>, netid: string, guest: string) {
    exists k :: 0 <= k < |s| && Owns(s[k], netid) && s[k].guest == guest
  }

  predicate HasId(s: seq<Entry>, id: nat) {
    exists k :: 0 <= k < |s| && s[k].id == id
  }

  /** The position of the entry with this primary key. */
  function IndexOfId(s: seq<Entry>, id: nat): (k: nat)
    requires HasId(s, id)
    ensures k < |s| && s[k].id == id
    ensures forall j :: 0 <= j < k ==> s[j].id != id
  {
    if s[0].id == id then 0
    else
      assert HasId(s[1..], id) by {
        var k :| 0 <= k < |s| && s[k].id == id;
        assert s[1..][k - 1].id == id;
      }
      1 + IndexOfId(s[1..], id)
  }

  /** No room of the event holds more people than its limit. */
  predicate WithinCapacity(rooms: seq<Room>, s: seq<Entry>) {
    forall r :: r in rooms ==> NumPeople(s, r) <= r.limit
  }

  /** Room primary keys are unique among the event's rooms. */
  predicate DistinctRoomIds(rooms: seq<Room>) {
    forall i, j :: 0 <= i < j < |rooms| ==> rooms[i].id != rooms[j].id
  }

  /** At most one entry per student. */
  predicate OneEntryPerStudent(s: seq<Entry>) {
    forall i, j :: 0 <= i < j < |s| ==> s[i].student.netid != s[j].student.netid
  }

  // ---------------------------------------------------------------------
  // Ledger arithmetic

  lemma {:induction false} NumPeopleAppend(s: seq<Entry>, t: seq<Entry>, room: Room)
    ensures NumPeople(s + t, room) == NumPeople(s, room) + NumPeople(t, room)
    decreases |t|
  {
    if t == [] {
      assert s + t == s;
    } else {
      assert (s + t)[..|s + t| - 1] == s + t[..|t| - 1];
      NumPeopleAppend(s, t[..|t| - 1], room);
    }
  }

  lemma {:induction false} TotalPeopleAppend(s: seq<Entry>, t: seq<Entry>)
    ensures TotalPeople(s + t) == TotalPeople(s) + TotalPeople(t)
    decreases |t|
  {
    if t == [] {
      assert s + t == s;
    } else {
      assert (s + t)[..|s + t| - 1] == s + t[..|t| - 1];
      TotalPeopleAppend(s, t[..|t| - 1]);
    }
  }

  /** A room's occupancy is the student's share plus everybody else's. */
  lemma {:induction false} NumPeopleSplit(s: seq<Entry>, netid: string, room: Room)
    ensures NumPeople(s, room) == NumPeople(EntriesOf(s, netid), room) + NumPeople(Others(s, netid), room)
    decreases |s|
  {
    if s != [] {
      var p := s[..|s| - 1];
      var e := s[|s| - 1];
      NumPeopleSplit(p, netid, room);
      assert NumPeople([e], room) == if e.room == room then Weight(e) else 0 by {
        assert [e][..0] == [];
      }
      if Owns(e, netid) {
        assert EntriesOf(s, netid) == EntriesOf(p, netid) + [e];
        assert Others(s, netid) == Others(p, netid) + [];
        assert Others(p, netid) + [] == Others(p, netid);
        NumPeopleAppend(EntriesOf(p, netid), [e], room);
      } else {
        assert Others(s, netid) == Others(p, netid) + [e];
        assert EntriesOf(s, netid) == EntriesOf(p, netid) + [];
        assert EntriesOf(p, netid) + [] == EntriesOf(p, netid);
        NumPeopleAppend(Others(p, netid), [e], room);
      }
    }
  }

  /** The people a student's entries bring: one per entry plus the named guests. */
  lemma {:induction false} PartyTotal(s: seq<Entry>, netid: string)
    ensures TotalPeople(EntriesOf(s, netid)) == |EntriesOf(s, netid)| + |GuestsOf(s, netid)|
    decreases |s|
  {
    if s != [] {
      var p := s[..|s| - 1];
      var e := s[|s| - 1];
      PartyTotal(p, netid);
      if Owns(e, netid) {
        assert EntriesOf(s, netid) == EntriesOf(p, netid) + [e];
        TotalPeopleAppend(EntriesOf(p, netid), [e]);
        assert [e][..0] == [];
        assert TotalPeople([e]) == Weight(e);
      } else {
        assert EntriesOf(s, netid) == EntriesOf(p, netid) + [];
        assert EntriesOf(p, netid) + [] == EntriesOf(p, netid);
      }
    }
  }

  lemma {:induction false} EntriesOfOne(s: seq<Entry>, netid: string, k: nat)
    requires OneEntryPerStudent(s) && k < |s| && Owns(s[k], netid)
    ensures EntriesOf(s, netid) == [s[k]]
    decreases |s|
  {
    var p := s[..|s| - 1];
    if k == |s| - 1 {
      NoEntriesOf(p, netid);
    } else {
      EntriesOfOne(p, netid, k);
    }
  }

  lemma {:induction false} NoEntriesOf(s: seq<Entry>, netid: string)
    requires forall k :: 0 <= k < |s| ==> !Owns(s[k], netid)
    ensures EntriesOf(s, netid) == [] && GuestsOf(s, netid) == []
    decreases |s|
  {
    if s != [] {
      NoEntriesOf(s[..|s| - 1], netid);
    }
  }

  lemma {:induction false} ProspectiveCountAppend(s: seq<Entry>, t: seq<Entry>)
    ensures ProspectiveCount(s + t) == ProspectiveCount(s) + ProspectiveCount(t)
    decreases |t|
  {
    if t == [] {
      assert s + t == s;
    } else {
      assert (s + t)[..|s + t| - 1] == s + t[..|t| - 1];
      ProspectiveCountAppend(s, t[..|t| - 1]);
    }
  }
}
