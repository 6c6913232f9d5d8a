/** The availability table and the queries over it (models/availability.js).
  *
  * The table is a sequence of (tutor, time) rows held by an Availability
  * object; the lessons booked at one time (Lesson.getAllAtTime) are an input
  * sequence and the users table (User.get) is a partial map from email to
  * profile.
  */
module Models {
  import opened Calendar
  import opened DateTimeHelp

  /** A user's email, the key of the users table. */
  type UserId = string

  /** A row of the availability table. */
  datatype Slot = Slot(tutor: UserId, time: Instant)

  /** A row of Lesson.getAllAtTime: who teaches and who attends. */
  datatype Lesson = Lesson(tutor: UserId, student: UserId)

  /** A row of User.get. */
  datatype Profile = Profile(
    email: UserId, fullName: string, isAdmin: bool, isTutor: bool, bio: string,
    university: string, imageURL: string, zoomLink: string, stripeID: string, isOnboarded: bool)

  /** BadRequestError and NotFoundError of expressError. */
  datatype Error = BadRequestError | NotFoundError

  datatype Result<T> = Success(value: T) | Failure(error: Error)

  // ---------------------------------------------------------------------
  // Collaborators and table queries
  // ---------------------------------------------------------------------

  /** User.get: the profile stored under email, or NotFoundError. */
  function GetUser(users: map<UserId, Profile>, email: UserId): (r: Result<Profile>)
    ensures r.Success? <==> email in users
    ensures r.Success? ==> r.value == users[email]
    ensures r.Failure? ==> r.error == NotFoundError
  {
    if email in users then Success(users[email]) else Failure(NotFoundError)
  }

  /** The tutors of the given lessons. */
  function BookedTutors(lessons: seq<Lesson>): (booked: set<UserId>)
    ensures forall t :: t in booked <==> exists l :: l in lessons && l.tutor == t
  {
    if lessons == [] then {}
    else BookedTutors(lessons[..|lessons| - 1]) + {lessons[|lessons| - 1].tutor}
  }

  /** SELECT tutor FROM availability WHERE time = $1, in table order. */
  function TutorsAt(table: seq<Slot>, time: Instant): (tutors: seq<UserId>)
    ensures |tutors| <= |table|
    ensures forall t :: t in tutors <==> Slot(t, time) in table
  {
    if table == [] then []
    else
      var init, last := table[..|table| - 1], table[|table| - 1];
      assert table == init + [last];
      TutorsAt(init, time) + if last.time == time then [last.tutor] else []
  }

  /** SELECT time FROM availability WHERE tutor = $1 AND time >= $2 AND
    * time <= $3, in table order. */
  function SlotsInRange(table: seq<Slot>, tutor: UserId, lo: Instant, hi: Instant): (times: seq<Instant>)
    ensures |times| <= |table|
    ensures forall x :: x in times <==> Slot(tutor, x) in table && lo <= x <= hi
  {
    if table == [] then []
    else
      var init, last := table[..|table| - 1], table[|table| - 1];
      assert table == init + [last];
      SlotsInRange(init, tutor, lo, hi) + if last.tutor == tutor && lo <= last.time <= hi then [last.time] else []
  }

  /** No row occurs twice. */
  ghost predicate Distinct(table: seq<Slot>)
  {
    forall i, j :: 0 <= i < j < |table| ==> table[i] != table[j]
  }

  /** DELETE FROM availability WHERE tutor = $1 AND time = $2: the table
    * without row s, the other rows kept in order. */
  function Without(table: seq<Slot>, s: Slot): (r: seq<Slot>)
    ensures forall x :: x in r <==> x in table && x != s
    ensures s !in table ==> r == table
  {
    if table == [] then []
    else
      var init, last := table[..|table| - 1], table[|table| - 1];
      assert table == init + [last];
      Without(init, s) + if last == s then [] else [last]
  }

  /** Deleting a row keeps every remaining pair unique. */
  lemma {:induction false} WithoutKeepsDistinct(table: seq<Slot>, s: Slot)
    requires Distinct(table)
    ensures Distinct(Without(table, s))
  {
    if table != [] {
      var init, last := table[..|table| - 1], table[|table| - 1];
      assert Distinct(init);
      WithoutKeepsDistinct(init, s);
      var w := Without(init, s);
      if last != s {
        assert last !in init by {
          assert table == init + [last];
        }
        forall i, j | 0 <= i < j < |w| + 1
          ensures (w + [last])[i] != (w + [last])[j]
        {
          if j == |w| {
            assert w[i] in w;
          }
        }
      }
    }
  }

  /** The tutors of `tutors` that are not in booked, in their order. */
  function Unbooked(tutors: seq<UserId>, booked: set<UserId>): (free: seq<UserId>)
    ensures |free| <= |tutors|
    ensures forall t :: t in free <==> t in tutors && t !in booked
  {
    if tutors == [] then []
    else
      var init, last := tutors[..|tutors| - 1], tutors[|tutors| - 1];
      assert tutors == init + [last];
      Unbooked(init, booked) + if last in booked then [] else [last]
  }

  /** No tutor appears twice: each one is absent from the list before it. */
  ghost predicate NoRepeats(tutors: seq<UserId>)
  {
    tutors == [] || (NoRepeats(tutors[..|tutors| - 1]) && tutors[|tutors| - 1] !in tutors[..|tutors| - 1])
  }

  /** With unique (tutor, time) pairs, the slot query at one instant lists
    * each tutor at most once. */
  lemma {:induction false} TutorsAtNoRepeats(table: seq<Slot>, time: Instant)
    requires Distinct(table)
    ensures NoRepeats(TutorsAt(table, time))
  {
    if table != [] {
      var init, last := table[..|table| - 1], table[|table| - 1];
      assert table == init + [last];
      assert Distinct(init);
      TutorsAtNoRepeats(init, time);
      var ts := TutorsAt(init, time);
      if last.time == time {
        assert last !in init by {
          assert forall k :: 0 <= k < |init| ==> init[k] == table[k] != table[|table| - 1];
        }
        assert (ts + [last.tutor])[..|ts|] == ts;
      } else {
        assert TutorsAt(table, time) == ts + [] == ts;
      }
    }
  }

  /** Filtering out the booked tutors keeps a list free of repeats. */
  lemma {:induction false} UnbookedNoRepeats(tutors: seq<UserId>, booked: set<UserId>)
    requires NoRepeats(tutors)
    ensures NoRepeats(Unbooked(tutors, booked))
  {
    if tutors != [] {
      var init, last := tutors[..|tutors| - 1], tutors[|tutors| - 1];
      assert tutors == init + [last];
      UnbookedNoRepeats(init, booked);
      var free := Unbooked(init, booked);
      assert Unbooked(tutors, booked) == free + if last in booked then [] else [last];
      if last !in booked {
        assert last !in free;
        assert (free + [last])[..|free|] == free;
      } else {
        assert free + [] == free;
      }
    }
  }

  /** The resolver removes no duplicates itself: the unique pairs of the
    * table already keep each tutor to one entry in its answer. */
  lemma FreeTutorsOnce(table: seq<Slot>, time: Instant, lessons: seq<Lesson>)
    requires Distinct(table)
    ensures NoRepeats(Unbooked(TutorsAt(table, time), BookedTutors(lessons)))
  {
    TutorsAtNoRepeats(table, time);
    UnbookedNoRepeats(TutorsAt(table, time), BookedTutors(lessons));
  }

  /** Filtering one more tutor appends it unless it is booked. */
  lemma UnbookedStep(tutors: seq<UserId>, booked: set<UserId>, i: int)
    requires 0 <= i < |tutors|
    ensures Unbooked(tutors[..i + 1], booked) ==
            Unbooked(tutors[..i], booked) + if tutors[i] in booked then [] else [tutors[i]]
  {
    assert tutors[..i + 1][..i] == tutors[..i];
  }

  /** out holds, position by position, the profiles of the tutors in free,
    * and every tutor in free has one. */
  ghost predicate ProfilesOf(out: seq<Profile>, free: seq<UserId>, users: map<UserId, Profile>)
  {
    && (forall t :: t in free ==> t in users)
    && |out| == |free|
    && forall j :: 0 <= j < |free| ==> out[j] == users[free[j]]
  }

  /** One turn of the resolver's second loop on a booked tutor: it is skipped. */
  lemma ProfilesSkipBooked(tutors: seq<UserId>, booked: set<UserId>, users: map<UserId, Profile>,
                           out: seq<Profile>, i: int)
    requires 0 <= i < |tutors| && tutors[i] in booked
    requires ProfilesOf(out, Unbooked(tutors[..i], booked), users)
    ensures ProfilesOf(out, Unbooked(tutors[..i + 1], booked), users)
  {
    UnbookedStep(tutors, booked, i);
  }

  /** One turn of the resolver's second loop on an unbooked tutor with a
    * user record: its profile is appended. */
  lemma ProfilesAppendFree(tutors: seq<UserId>, booked: set<UserId>, users: map<UserId, Profile>,
                           out: seq<Profile>, i: int)
    requires 0 <= i < |tutors| && tutors[i] !in booked && tutors[i] in users
    requires ProfilesOf(out, Unbooked(tutors[..i], booked), users)
    ensures ProfilesOf(out + [users[tutors[i]]], Unbooked(tutors[..i + 1], booked), users)
  {
    UnbookedStep(tutors, booked, i);
  }

  /** a is b with some elements left out, the rest in the same order. */
  ghost predicate IsSubsequence(a: seq<UserId>, b: seq<UserId>)
    decreases |b|
  {
    if a == [] then true
    else if b == [] then false
    else if a[|a| - 1] == b[|b| - 1] then IsSubsequence(a[..|a| - 1], b[..|b| - 1])
    else IsSubsequence(a, b[..|b| - 1])
  }

  /** The unbooked tutors keep the order of the slot query. */
  lemma {:induction false} UnbookedIsSubsequence(tutors: seq<UserId>, booked: set<UserId>)
    ensures IsSubsequence(Unbooked(tutors, booked), tutors)
  {
    if tutors != [] {
      var init, last := tutors[..|tutors| - 1], tutors[|tutors| - 1];
      var free, prev := Unbooked(tutors, booked), Unbooked(init, booked);
      UnbookedIsSubsequence(init, booked);
      if last in booked {
        assert free == prev;
        if prev != [] {
          assert prev[|prev| - 1] in prev;
          assert prev[|prev| - 1] != last;
        }
      } else {
        assert free == prev + [last];
        assert free[..|free| - 1] == prev;
      }
    }
  }

  /** Lessons at another tutor do not hide a tutor; a lesson of the tutor does. */
  lemma UnbookedExactly(table: seq<Slot>, time: Instant, lessons: seq<Lesson>, t: UserId)
    ensures t in Unbooked(TutorsAt(table, time), BookedTutors(lessons)) <==>
            Slot(t, time) in table && forall l :: l in lessons ==> l.tutor != t
  {
  }

  /** The resolver's example: tutors A and B have a slot at T and A has a
    * lesson at T, so only B is free. */
  lemma OnlyUnbookedTutorIsFree(a: UserId, b: UserId, student: UserId)
    requires a != b
    ensures Unbooked([a, b], BookedTutors([Lesson(a, student)])) == [b]
  {
    assert [a, b][..1] == [a];
    assert [a][..0] == [];
    assert BookedTutors([Lesson(a, student)]) == {a};
  }

  /** Every slot the week query selects is one of the tutor's, and its local
    * time falls in the anchor's Monday-to-Sunday week; every slot of the
    * tutor in that week is selected. */
  lemma WeekWindowExact(table: seq<Slot>, tutor: UserId, anchor: Instant, tz: int, x: Instant)
    ensures x in SlotsInRange(table, tutor, ToStorage(StartOfWeek(anchor), tz), ToStorage(EndOfWeek(anchor), tz)) <==>
            Slot(tutor, x) in table && StartOfWeek(ToLocal(x, tz)) == StartOfWeek(anchor)
  {
    var local := ToLocal(x, tz);
    if StartOfWeek(anchor) <= local <= EndOfWeek(anchor) {
      SameWeek(anchor, local);
    }
    if StartOfWeek(local) == StartOfWeek(anchor) {
      assert local < StartOfWeek(anchor) + 7 * 86400;
    }
  }

  // ---------------------------------------------------------------------
  // The Availability model
  // ---------------------------------------------------------------------

  class Availability {
    /** The availability table, in row order. */
    var table: seq<Slot>

    /** The table holds each (tutor, time) pair at most once. */
    ghost predicate Valid()
      reads this
    {
      Distinct(table)
    }

    /** The stored pairs. */
    ghost function Slots(): set<Slot>
      reads this
    {
      set s | s in table
    }

    constructor ()
      ensures Valid() && table == []
    {
      table := [];
    }

    /** Availability.add: time is moved to storage time by the host's
      * offset; a stored (tutor, time) pair is a BadRequestError and changes
      * nothing, otherwise the pair is appended and returned. */
    method Add(tutor: UserId, time: Instant, hostOffset: int) returns (r: Result<Slot>)
      requires Valid()
      modifies this
      ensures Valid()
      ensures Slots() == old(Slots()) + {Slot(tutor, ToStorage(time, hostOffset))}
      ensures Slot(tutor, ToStorage(time, hostOffset)) in old(Slots()) ==>
                r == Failure(BadRequestError) && table == old(table)
      ensures Slot(tutor, ToStorage(time, hostOffset)) !in old(Slots()) ==>
                r == Success(Slot(tutor, ToStorage(time, hostOffset))) &&
                table == old(table) + [Slot(tutor, ToStorage(time, hostOffset))]
    {
      var stored := ToStorage(time, hostOffset);
      var duplicateCheck := Slot(tutor, stored) in table;
      if duplicateCheck {
        return Failure(BadRequestError);
      }
      table := table + [Slot(tutor, stored)];
      r := Success(Slot(tutor, stored));
    }

    /** Availability.remove: time is moved to storage time as in Add; an
      * absent pair is a NotFoundError and changes nothing, otherwise exactly
      * that pair is deleted. */
    method Remove(tutor: UserId, time: Instant, hostOffset: int) returns (r: Result<()>)
      requires Valid()
      modifies this
      ensures Valid()
      ensures Slots() == old(Slots()) - {Slot(tutor, ToStorage(time, hostOffset))}
      ensures Slot(tutor, ToStorage(time, hostOffset)) !in old(Slots()) ==>
                r == Failure(NotFoundError) && table == old(table)
      ensures Slot(tutor, ToStorage(time, hostOffset)) in old(Slots()) ==>
                r == Success(()) && table == Without(old(table), Slot(tutor, ToStorage(time, hostOffset)))
    {
      var stored := ToStorage(time, hostOffset);
      var deleted := Slot(tutor, stored) in table;
      WithoutKeepsDistinct(table, Slot(tutor, stored));
      table := Without(table, Slot(tutor, stored));
      if !deleted {
        return Failure(NotFoundError);
      }
      r := Success(());
    }

    /** Availability.getAllAvailableTutors: the profiles of the tutors with a
      * slot at time and no lesson among `lessons` (the lessons at time), in
      * the order of the slot query; NotFoundError, and no partial list, when
      * one of those tutors has no user record. */
    method GetAllAvailableTutors(time: Instant, lessons: seq<Lesson>, users: map<UserId, Profile>)
      returns (r: Result<seq<Profile>>)
      requires Valid()
      ensures NoRepeats(Unbooked(TutorsAt(table, time), BookedTutors(lessons)))
      ensures var free := Unbooked(TutorsAt(table, time), BookedTutors(lessons));
              && (r.Success? <==> forall t :: t in free ==> t in users)
              && (r.Failure? ==> r.error == NotFoundError)
              && (r.Success? ==> ProfilesOf(r.value, free, users))
    {
      var availabilities := TutorsAt(table, time);
      var tutorsAlreadyScheduled: set<UserId> := {};
      for i := 0 to |lessons|
        invariant tutorsAlreadyScheduled == BookedTutors(lessons[..i])
      {
        assert lessons[..i + 1][..i] == lessons[..i];
        tutorsAlreadyScheduled := tutorsAlreadyScheduled + {lessons[i].tutor};
      }
      assert lessons[..|lessons|] == lessons;
      var tutorsAvailable: seq<Profile> := [];
      for i := 0 to |availabilities|
        invariant ProfilesOf(tutorsAvailable, Unbooked(availabilities[..i], tutorsAlreadyScheduled), users)
      {
        var tutor := availabilities[i];
        if tutor !in tutorsAlreadyScheduled {
          var user := GetUser(users, tutor);
          if user.Failure? {
            assert tutor in Unbooked(availabilities, tutorsAlreadyScheduled);
            FreeTutorsOnce(table, time, lessons);
            return Failure(user.error);
          }
          ProfilesAppendFree(availabilities, tutorsAlreadyScheduled, users, tutorsAvailable, i);
          tutorsAvailable := tutorsAvailable + [user.value];
        } else {
          ProfilesSkipBooked(availabilities, tutorsAlreadyScheduled, users, tutorsAvailable, i);
        }
      }
      assert availabilities[..|availabilities|] == availabilities;
      FreeTutorsOnce(table, time, lessons);
      r := Success(tutorsAvailable);
    }

    /** Availability.getTutorOneWeek: the grid of the tutor's slots from the
      * Monday 00:00:00 to the Sunday 23:59:59 of the week of
      * new Date(year, month, day), both bounds moved to storage time by tz
      * and both included, together with the moved week start. */
    method GetTutorOneWeek(tutor: UserId, year: int, month: int, day: int, tz: int)
      returns (grid: seq<GridRow>, weekStart: Instant)
      ensures weekStart == ToStorage(StartOfWeek(LocalMidnight(year, month, day)), tz)
      ensures IsGrid(SlotsInRange(table, tutor, weekStart, ToStorage(EndOfWeek(LocalMidnight(year, month, day)), tz)), tz, grid)
    {
      var startOfWeek := StartOfWeek(LocalMidnight(year, month, day));
      var endOfWeek := EndOfWeek(LocalMidnight(year, month, day));
      startOfWeek := ToStorage(startOfWeek, tz);
      endOfWeek := ToStorage(endOfWeek, tz);
      var availability := SlotsInRange(table, tutor, startOfWeek, endOfWeek);
      grid := StructureAvailability(availability, tz);
      weekStart := startOfWeek;
    }
  }

  /** Adding a pair that is not stored and then removing it, with the same
    * host offset, gives back the table as it was. */
  method AddThenRemove(store: Availability, tutor: UserId, time: Instant, hostOffset: int)
    requires store.Valid()
    requires Slot(tutor, ToStorage(time, hostOffset)) !in store.Slots()
    modifies store
    ensures store.Valid() && store.table == old(store.table)
  {
    ghost var before := store.table;
    var added := store.Add(tutor, time, hostOffset);
    var s := Slot(tutor, ToStorage(time, hostOffset));
    assert (before + [s])[..|before|] == before;
    var removed := store.Remove(tutor, time, hostOffset);
  }

  /** The slot query over a single slot at time lists that slot's tutor. */
  lemma SingleSlotAt(a: UserId, time: Instant)
    ensures TutorsAt([Slot(a, time)], time) == [a]
  {
    assert [Slot(a, time)][..0] == [];
  }

  /** A single tutor is kept exactly when unbooked. */
  lemma SingleTutorUnbooked(a: UserId, booked: set<UserId>)
    ensures Unbooked([a], booked) == if a in booked then [] else [a]
  {
    assert [a][..0] == [];
  }

  /** The profiles of a single tutor are that tutor's profile alone. */
  lemma ProfilesOfOne(out: seq<Profile>, free: seq<UserId>, a: UserId, users: map<UserId, Profile>)
    requires free == [a] && ProfilesOf(out, free, users)
    ensures a in users && out == [users[a]]
  {
    assert a in free;
  }

  /** Tutor A alone has a slot at 2024-01-03T18:00:00Z and nobody has a
    * lesson then: the resolver returns A's profile. */
  method FreeTutorListed(store: Availability, a: UserId, users: map<UserId, Profile>)
    returns (r: Result<seq<Profile>>)
    requires store.table == [Slot(a, 1704304800)]
    requires a in users
    ensures r == Success([users[a]])
  {
    SingleSlotAt(a, 1704304800);
    SingleTutorUnbooked(a, BookedTutors([]));
    assert store.Valid();
    ghost var free := Unbooked(TutorsAt(store.table, 1704304800), BookedTutors([]));
    assert free == [a];
    assert forall t :: t in free ==> t in users by {
      assert forall t :: t in [a] ==> t == a;
    }
    r := store.GetAllAvailableTutors(1704304800, [], users);
    ProfilesOfOne(r.value, free, a, users);
  }

  /** Once A has a lesson at that instant, the resolver returns no one. */
  method BookedTutorHidden(store: Availability, a: UserId, student: UserId, users: map<UserId, Profile>)
    returns (r: Result<seq<Profile>>)
    requires store.table == [Slot(a, 1704304800)]
    ensures r == Success([])
  {
    SingleSlotAt(a, 1704304800);
    SingleTutorUnbooked(a, BookedTutors([Lesson(a, student)]));
    assert a in BookedTutors([Lesson(a, student)]) by {
      assert Lesson(a, student) in [Lesson(a, student)];
    }
    r := store.GetAllAvailableTutors(1704304800, [Lesson(a, student)], users);
  }

  /** Publishing the same slot twice fails the second time, and deleting a
    * slot nobody published fails. */
  method DuplicateAndMissingSlot(a: UserId, b: UserId)
    returns (first: Result<Slot>, again: Result<Slot>, missing: Result<()>)
    ensures first == Success(Slot(a, 1704304800))
    ensures again == Failure(BadRequestError)
    ensures missing == Failure(NotFoundError)
  {
    var store := new Availability();
    first := store.Add(a, 1704304800, 0);
    again := store.Add(a, 1704304800, 0);
    missing := store.Remove(b, 4070908800, 0);
  }
}
