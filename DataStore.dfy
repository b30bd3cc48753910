/**
 * The persistent store: three ordered collections kept in memory and
 * written out, whole, to one file (`store.json`) after every change.
 *
 * The file is modelled by its meaning rather than its bytes: absent or
 * unreadable, present but not decodable, or holding a decoded payload.
 */
module Store {
  import opened Values
  import opened Models
  import opened Collections

  /** The single payload written to disk: all three collections, in order. */
  datatype SaveData = SaveData(
    members: seq<FamilyMember>,
    tasks: seq<Task>,
    events: seq<FamilyEvent>)

  /** Three empty collections: a first launch, or a file that does not decode. */
  const Empty := SaveData([], [], [])

  /** The contents of the backing file, as the store can observe them. */
  datatype Disk =
    | Absent          // no file yet, or it cannot be read
    | Corrupt         // the file is there but does not decode as a SaveData
    | Valid(data: SaveData)

  /** Every identity is unique within its own collection. */
  ghost predicate IdsDistinct(s: SaveData) {
    DistinctIds(s.members, MemberId) &&
    DistinctIds(s.tasks, TaskId) &&
    DistinctIds(s.events, EventId)
  }

  class DataStore {
    var members: seq<FamilyMember>
    var tasks: seq<Task>
    var events: seq<FamilyEvent>
    /** The current contents of the backing file. */
    var disk: Disk

    /** The in-memory state, in the shape it is persisted in. */
    function State(): SaveData
      reads this
    {
      SaveData(members, tasks, events)
    }

    /** The file holds exactly the in-memory state. */
    predicate Persisted()
      reads this
    {
      disk == Valid(State())
    }

    /**
     * Opens the store over the file as it is at launch and loads it: the
     * decoded payload, or nothing when there is no file or it does not
     * decode (a first launch and a corrupt file cannot be told apart).
     */
    constructor (file: Disk)
      ensures disk == file
      ensures file.Valid? ==> State() == file.data
      ensures !file.Valid? ==> State() == Empty
    {
      members, tasks, events := [], [], [];
      disk := file;
      new;
      Load();
    }

    /**
     * Reads the file: a missing or unreadable file leaves the collections
     * as they are, a file that does not decode empties all three, and a
     * decoded payload replaces all three, in order.
     */
    method Load()
      modifies this`members, this`tasks, this`events
      ensures disk.Absent? ==> State() == old(State())
      ensures disk.Corrupt? ==> State() == Empty
      ensures disk.Valid? ==> State() == disk.data
    {
      match disk
      case Absent =>
      case Corrupt =>
        members := [];
        tasks := [];
        events := [];
      case Valid(decoded) =>
        members := decoded.members;
        tasks := decoded.tasks;
        events := decoded.events;
    }

    /**
     * Writes the whole state over the file. Encoding or writing may fail,
     * and a failure is swallowed. The model takes a failed save to leave the
     * file as it was; a write that fails part-way is not modelled.
     */
    method Save()
      modifies this`disk
      ensures Persisted() || disk == old(disk)
    {
      var written: bool :| true;
      if written {
        disk := Valid(State());
      }
    }

    // Member operations

    /** Appends `member` and saves. */
    method AddMember(member: FamilyMember)
      modifies this`members, this`disk
      ensures members == old(members) + [member]
      ensures Persisted() || disk == old(disk)
      ensures old(IdsDistinct(State())) ==>
        (IdsDistinct(State()) <==> Fresh(member.id, old(members), MemberId))
    {
      if DistinctIds(members, MemberId) {
        AppendKeepsDistinct(members, MemberId, member);
      }
      members := members + [member];
      Save();
    }

    /**
     * Replaces the first member with `member`'s id and saves; with no such
     * member nothing changes and nothing is saved.
     */
    method UpdateMember(member: FamilyMember)
      modifies this`members, this`disk
      ensures members == ReplaceFirst(old(members), MemberId, member)
      ensures Fresh(member.id, old(members), MemberId) ==> members == old(members) && disk == old(disk)
      ensures !Fresh(member.id, old(members), MemberId) ==> Persisted() || disk == old(disk)
      ensures old(IdsDistinct(State())) ==> IdsDistinct(State())
    {
      if DistinctIds(members, MemberId) {
        ReplaceFirstKeepsDistinct(members, MemberId, member);
      }
      var index := FindFirst(members, MemberId, member.id);
      if index.Some? {
        members := members[index.value := member];
        Save();
      }
    }

    /** Removes the members at `offsets` (positions before removal) and saves. */
    method RemoveMember(offsets: set<nat>)
      requires forall o :: o in offsets ==> o < |members|
      modifies this`members, this`disk
      ensures members == RemoveOffsets(old(members), offsets)
      ensures Persisted() || disk == old(disk)
      ensures old(IdsDistinct(State())) ==> IdsDistinct(State())
    {
      if DistinctIds(members, MemberId) {
        RemoveOffsetsKeepsDistinct(members, MemberId, offsets);
      }
      members := RemoveAtOffsets(members, offsets);
      Save();
    }

    // Task operations

    /** Appends `task` and saves. */
    method AddTask(task: Task)
      modifies this`tasks, this`disk
      ensures tasks == old(tasks) + [task]
      ensures Persisted() || disk == old(disk)
      ensures old(IdsDistinct(State())) ==>
        (IdsDistinct(State()) <==> Fresh(task.id, old(tasks), TaskId))
    {
      if DistinctIds(tasks, TaskId) {
        AppendKeepsDistinct(tasks, TaskId, task);
      }
      tasks := tasks + [task];
      Save();
    }

    /**
     * Replaces the first task with `task`'s id and saves; with no such task
     * nothing changes and nothing is saved.
     */
    method UpdateTask(task: Task)
      modifies this`tasks, this`disk
      ensures tasks == ReplaceFirst(old(tasks), TaskId, task)
      ensures Fresh(task.id, old(tasks), TaskId) ==> tasks == old(tasks) && disk == old(disk)
      ensures !Fresh(task.id, old(tasks), TaskId) ==> Persisted() || disk == old(disk)
      ensures old(IdsDistinct(State())) ==> IdsDistinct(State())
    {
      if DistinctIds(tasks, TaskId) {
        ReplaceFirstKeepsDistinct(tasks, TaskId, task);
      }
      var index := FindFirst(tasks, TaskId, task.id);
      if index.Some? {
        tasks := tasks[index.value := task];
        Save();
      }
    }

    /** Removes the tasks at `offsets` (positions before removal) and saves. */
    method RemoveTask(offsets: set<nat>)
      requires forall o :: o in offsets ==> o < |tasks|
      modifies this`tasks, this`disk
      ensures tasks == RemoveOffsets(old(tasks), offsets)
      ensures Persisted() || disk == old(disk)
      ensures old(IdsDistinct(State())) ==> IdsDistinct(State())
    {
      if DistinctIds(tasks, TaskId) {
        RemoveOffsetsKeepsDistinct(tasks, TaskId, offsets);
      }
      tasks := RemoveAtOffsets(tasks, offsets);
      Save();
    }

    // Event operations

    /** Appends `event` and saves. */
    method AddEvent(event: FamilyEvent)
      modifies this`events, this`disk
      ensures events == old(events) + [event]
      ensures Persisted() || disk == old(disk)
      ensures old(IdsDistinct(State())) ==>
        (IdsDistinct(State()) <==> Fresh(event.id, old(events), EventId))
    {
      if DistinctIds(events, EventId) {
        AppendKeepsDistinct(events, EventId, event);
      }
      events := events + [event];
      Save();
    }

    /**
     * Replaces the first event with `event`'s id and saves; with no such
     * event nothing changes and nothing is saved.
     */
    method UpdateEvent(event: FamilyEvent)
      modifies this`events, this`disk
      ensures events == ReplaceFirst(old(events), EventId, event)
      ensures Fresh(event.id, old(events), EventId) ==> events == old(events) && disk == old(disk)
      ensures !Fresh(event.id, old(events), EventId) ==> Persisted() || disk == old(disk)
      ensures old(IdsDistinct(State())) ==> IdsDistinct(State())
    {
      if DistinctIds(events, EventId) {
        ReplaceFirstKeepsDistinct(events, EventId, event);
      }
      var index := FindFirst(events, EventId, event.id);
      if index.Some? {
        events := events[index.value := event];
        Save();
      }
    }

    /** Removes the events at `offsets` (positions before removal) and saves. */
    method RemoveEvent(offsets: set<nat>)
      requires forall o :: o in offsets ==> o < |events|
      modifies this`events, this`disk
      ensures events == RemoveOffsets(old(events), offsets)
      ensures Persisted() || disk == old(disk)
      ensures old(IdsDistinct(State())) ==> IdsDistinct(State())
    {
      if DistinctIds(events, EventId) {
        RemoveOffsetsKeepsDistinct(events, EventId, offsets);
      }
      events := RemoveAtOffsets(events, offsets);
      Save();
    }
  }

  /**
   * A saved state survives a relaunch: a store opened over the file another
   * store persisted holds the same three collections.
   */
  method Relaunch(store: DataStore) returns (reopened: DataStore)
    requires store.Persisted()
    ensures reopened.State() == store.State()
    ensures fresh(reopened)
  {
    reopened := new DataStore(store.disk);
  }

  /**
   * A task's assignment is a bare id: removing the member it names leaves
   * the task as it was (tasks are not touched) while no member carries that
   * id any more.
   */
  lemma DanglingAssignment(members: seq<FamilyMember>, t: Task, p: nat)
    requires DistinctIds(members, MemberId) && p < |members|
    requires t.assignedMemberID == Some(members[p].id)
    ensures Fresh(t.assignedMemberID.value, RemoveOffsets(members, {p}), MemberId)
  {
    RemoveOffsetsKeepsExactlySurvivors(members, MemberId, {p}, p);
  }

  /** Removing position 0 of three tasks leaves the other two, moved up by one. */
  lemma RemoveFirstOfThree(a: Task, b: Task, c: Task)
    ensures RemoveOffsets([a, b, c], {0}) == [b, c]
  {
    assert [a, b, c][..2] == [a, b];
    assert [a, b][..1] == [a];
    assert [a][..0] == [];
    assert RemoveOffsets([a], {0}) == [];
    assert RemoveOffsets([a, b], {0}) == [b];
  }

  /** What a client of the store can rely on, from the contracts alone. */
  method Scenarios(alice: FamilyMember, chore: Task, a: Task, b: Task, c: Task)
    requires chore.assignedMemberID == Some(alice.id)
  {
    // A member added and saved comes back, unchanged, after a relaunch.
    var store := new DataStore(Absent);
    store.AddMember(alice);
    if store.Persisted() {
      var again := Relaunch(store);
      assert again.members == [alice];
    }

    // Removing the assignee leaves the task, now naming no member.
    store.AddTask(chore);
    store.RemoveMember({0});
    assert store.tasks == [chore] && store.members == [];
    assert store.tasks[0].assignedMemberID == Some(alice.id);
    assert Fresh(alice.id, store.members, MemberId);

    // Removing position 0 of three tasks keeps the other two, in order.
    var other := new DataStore(Valid(SaveData([], [a, b, c], [])));
    other.RemoveTask({0});
    RemoveFirstOfThree(a, b, c);
    assert other.tasks == [b, c];

    // Updating an id that is not there changes neither memory nor file.
    var file := other.disk;
    other.UpdateMember(alice);
    assert other.members == [] && other.disk == file;
  }
}
