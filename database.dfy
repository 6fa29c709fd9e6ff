/**
  The student table of `src/database.c`: a fixed array of 100 records of
  which the first `count` are in use. Records are appended at the end,
  found by the lowest index whose id matches, and removed by shifting the
  later records left by one. Ids are not required to be unique.
 */
module Database {
  import opened Wrappers
  import opened Validator

  /** `Student`: an id, a 64-character name buffer and a score. */
  datatype Student = Student(id: int, name: string, score: Float)

  /** `MAX_STUDENTS` */
  const MaxStudents := 100

  /** The size of a record's name buffer. */
  const NameBufferSize := 64

  /** A record whose bytes are all zero. */
  const Blank := Student(0, seq(NameBufferSize, _ => '\0'), Finite(0.0))

  /** The lowest index of a record with this id. */
  function FirstIndex(rows: seq<Student>, id: int): (r: Option<nat>)
    ensures r.Some? ==> r.value < |rows| && rows[r.value].id == id
    ensures r.Some? ==> forall k :: 0 <= k < r.value ==> rows[k].id != id
    ensures r.None? <==> forall k :: 0 <= k < |rows| ==> rows[k].id != id
  {
    if rows == [] then None
    else if rows[0].id == id then Some(0)
    else match FirstIndex(rows[1..], id)
      case None => None
      case Some(i) => Some(i + 1)
  }

  /** The rows after `db_update_score`: the first record with the id gets the
      new score. */
  function WithScore(rows: seq<Student>, id: int, score: Float): seq<Student> {
    match FirstIndex(rows, id)
    case None => rows
    case Some(i) => rows[i := rows[i].(score := score)]
  }

  /** The rows after `db_delete_student`: the first record with the id is
      taken out, the others keep their order. */
  function Without(rows: seq<Student>, id: int): seq<Student> {
    match FirstIndex(rows, id)
    case None => rows
    case Some(i) => RemovedAt(rows, i)
  }

  /** The rows with the one at `i` taken out. */
  function RemovedAt(rows: seq<Student>, i: nat): seq<Student>
    requires i < |rows|
  {
    rows[..i] + rows[i + 1..]
  }

  /** The static table: `students` and `student_count`. */
  class Table {
    const students: array<Student>
    var count: nat

    ghost predicate Valid()
      reads this
    {
      students.Length == MaxStudents && count <= MaxStudents
    }

    /** The records in use, in table order. */
    ghost function Contents(): seq<Student>
      reads this, students
      requires Valid()
    {
      students[..count]
    }

    /** Static storage starts zeroed with no record in use. */
    constructor ()
      ensures Valid() && fresh(students) && count == 0
      ensures forall k :: 0 <= k < students.Length ==> students[k] == Blank
    {
      students := new Student[MaxStudents](_ => Blank);
      count := 0;
    }

    /** `db_init`: no record in use and every slot zeroed. */
    method Init() returns (r: int)
      requires Valid()
      modifies this, students
      ensures Valid() && r == 0 && count == 0 && Contents() == []
      ensures forall k :: 0 <= k < students.Length ==> students[k] == Blank
    {
      count := 0;
      forall k | 0 <= k < students.Length {
        students[k] := Blank;
      }
      return 0;
    }

    /** `db_add_student`: a full table, checked first, or a null record
        refuses the call and changes nothing; otherwise the record goes into
        slot `count`, which grows by one. */
    method Add(student: Option<Student>) returns (r: int)
      requires Valid()
      modifies this, students
      ensures Valid()
      ensures r == 0 <==> old(count) < MaxStudents && student.Some?
      ensures r != 0 ==> r == -1 && count == old(count) && students[..] == old(students[..])
      ensures r == 0 ==> count == old(count) + 1 && students[..] == old(students[..])[old(count) := student.value]
      ensures r == 0 ==> Contents() == old(Contents()) + [student.value]
    {
      if count >= MaxStudents {
        return -1;
      }
      if student.None? {
        return -1;
      }
      students[count] := student.value;
      count := count + 1;
      return 0;
    }

    /** `db_get_student`: the destination is `None` for a null pointer;
        `dest'` is what it holds afterwards, a copy of the first matching
        record on success and unchanged otherwise. */
    method Get(id: int, dest: Option<Student>) returns (r: int, dest': Option<Student>)
      requires Valid()
      ensures dest.None? ==> r == -1 && dest' == dest
      ensures dest.Some? && FirstIndex(Contents(), id).None? ==> r == -1 && dest' == dest
      ensures dest.Some? && FirstIndex(Contents(), id).Some? ==>
        r == 0 && dest' == Some(Contents()[FirstIndex(Contents(), id).value])
    {
      if dest.None? {
        return -1, dest;
      }
      for i := 0 to count
        invariant forall k :: 0 <= k < i ==> students[k].id != id
      {
        if students[i].id == id {
          assert Contents()[i] == students[i];
          return 0, Some(students[i]);
        }
      }
      return -1, dest;
    }

    /** `db_update_score`: the first matching record's score is replaced;
        with no match nothing changes. */
    method UpdateScore(id: int, score: Float) returns (r: int)
      requires Valid()
      modifies students
      ensures Valid()
      ensures r == 0 || r == -1
      ensures r == 0 <==> FirstIndex(old(Contents()), id).Some?
      ensures Contents() == WithScore(old(Contents()), id, score)
      ensures students[count..] == old(students[count..])
    {
      for i := 0 to count
        invariant forall k :: 0 <= k < i ==> students[k].id != id
      {
        if students[i].id == id {
          students[i] := students[i].(score := score);
          return 0;
        }
      }
      return -1;
    }

    /** `db_delete_student`: the first matching record is removed by moving
        the later ones down a slot; the count drops by one. The slot freed at
        the end keeps its old record. */
    method Delete(id: int) returns (r: int)
      requires Valid()
      modifies this, students
      ensures Valid()
      ensures r == 0 || r == -1
      ensures r == 0 <==> FirstIndex(old(Contents()), id).Some?
      ensures Contents() == Without(old(Contents()), id)
      ensures students[count..] == old(students[..])[count..]
    {
      for i := 0 to count
        invariant forall k :: 0 <= k < i ==> students[k].id != id
      {
        if students[i].id == id {
          ghost var rows := students[..count];
          FirstIndexAt(rows, id, i);
          MoveDown(students, i, count);
          count := count - 1;
          assert Contents() == rows[..i] + rows[i + 1..];
          return 0;
        }
      }
      return -1;
    }
  }

  /** The `memmove` of a delete: the records in `from + 1 .. n` move down to
      `from .. n - 1`; the slot `n - 1` and the rest of the array keep their
      records. */
  method MoveDown(a: array<Student>, from: nat, n: nat)
    requires from < n <= a.Length
    modifies a
    ensures a[..n - 1] == old(a[..n])[..from] + old(a[..n])[from + 1..]
    ensures a[n - 1..] == old(a[n - 1..])
  {
    ghost var rows := a[..n];
    for j := from to n - 1
      invariant forall k :: 0 <= k < from ==> a[k] == rows[k]
      invariant forall k :: from <= k < j ==> a[k] == rows[k + 1]
      invariant forall k :: j <= k < a.Length ==> a[k] == old(a[k])
    {
      a[j] := a[j + 1];
    }
    assert a[..n - 1] == rows[..from] + rows[from + 1..] by {
      forall k | 0 <= k < n - 1
        ensures a[k] == (rows[..from] + rows[from + 1..])[k]
      {
        if k >= from {
          assert (rows[..from] + rows[from + 1..])[k] == rows[k + 1];
        }
      }
    }
    assert a[n - 1..] == old(a[n - 1..]);
  }

  /** The first match is at `i` when `i` matches and nothing before it does. */
  lemma FirstIndexAt(rows: seq<Student>, id: int, i: nat)
    requires i < |rows| && rows[i].id == id
    requires forall k :: 0 <= k < i ==> rows[k].id != id
    ensures FirstIndex(rows, id) == Some(i)
  {
  }

  // ---------------------------------------------------------------------------
  // What the operations promise together

  /** An appended record is found by its id exactly when no earlier record
      has that id: adding does not check for duplicates, and an earlier
      record with the same id keeps shadowing the new one. */
  lemma {:induction false} AppendFound(rows: seq<Student>, s: Student, id: int)
    ensures FirstIndex(rows, id).Some? ==> FirstIndex(rows + [s], id) == FirstIndex(rows, id)
    ensures FirstIndex(rows, id).None? && s.id == id ==> FirstIndex(rows + [s], id) == Some(|rows|)
    ensures FirstIndex(rows, id).None? && s.id != id ==> FirstIndex(rows + [s], id).None?
  {
    if rows != [] && rows[0].id != id {
      assert (rows + [s])[1..] == rows[1..] + [s];
      AppendFound(rows[1..], s, id);
    } else if rows == [] {
      assert rows + [s] == [s];
    }
  }

  /** Deleting by the id of a record just added, when no earlier record has
      that id, gives back the rows before the add. */
  lemma DeleteUndoesAdd(rows: seq<Student>, s: Student)
    requires FirstIndex(rows, s.id).None?
    ensures Without(rows + [s], s.id) == rows
  {
    AppendFound(rows, s, s.id);
    assert (rows + [s])[..|rows|] == rows;
  }

  /** An update changes only the score of the first matching record: every
      id and name, and every other record, stay as they were, and a lookup
      by the id then sees the new score. */
  lemma UpdateOnlyScore(rows: seq<Student>, id: int, score: Float)
    ensures |WithScore(rows, id, score)| == |rows|
    ensures forall k :: 0 <= k < |rows| ==>
      WithScore(rows, id, score)[k].id == rows[k].id && WithScore(rows, id, score)[k].name == rows[k].name
    ensures forall k :: 0 <= k < |rows| && Some(k) != FirstIndex(rows, id) ==> WithScore(rows, id, score)[k] == rows[k]
    ensures FirstIndex(WithScore(rows, id, score), id) == FirstIndex(rows, id)
    ensures FirstIndex(rows, id).Some? ==> WithScore(rows, id, score)[FirstIndex(rows, id).value].score == score
  {
    var w := WithScore(rows, id, score);
    var f := FirstIndex(rows, id);
    var g := FirstIndex(w, id);
    if f.Some? {
      assert g.Some? && g.value == f.value by {
        assert w[f.value].id == id;
        assert forall k :: 0 <= k < f.value ==> w[k].id != id;
      }
    }
  }

  /** A delete removes one record, the first with the id, and keeps the
      order of the others: those before it stay in place and those after it
      move down one position. */
  lemma DeleteRemovesOne(rows: seq<Student>, id: int)
    requires FirstIndex(rows, id).Some?
    ensures |Without(rows, id)| == |rows| - 1
    ensures multiset(Without(rows, id)) + multiset{rows[FirstIndex(rows, id).value]} == multiset(rows)
    ensures forall k :: 0 <= k < FirstIndex(rows, id).value ==> Without(rows, id)[k] == rows[k]
    ensures forall k :: FirstIndex(rows, id).value <= k < |rows| - 1 ==> Without(rows, id)[k] == rows[k + 1]
  {
    var i := FirstIndex(rows, id).value;
    RemoveAt(rows, i);
  }

  /** Taking out the element at `i`: one fewer of it, the others in order. */
  lemma RemoveAt(rows: seq<Student>, i: nat)
    requires i < |rows|
    ensures |RemovedAt(rows, i)| == |rows| - 1
    ensures multiset(RemovedAt(rows, i)) + multiset{rows[i]} == multiset(rows)
    ensures forall k :: 0 <= k < i ==> RemovedAt(rows, i)[k] == rows[k]
    ensures forall k :: i <= k < |rows| - 1 ==> RemovedAt(rows, i)[k] == rows[k + 1]
  {
    assert rows == rows[..i] + [rows[i]] + rows[i + 1..];
  }

  /** A delete of an id no record has changes nothing, and a delete never
      adds a record. */
  lemma DeleteAbsent(rows: seq<Student>, id: int)
    ensures FirstIndex(rows, id).None? ==> Without(rows, id) == rows
    ensures multiset(Without(rows, id)) <= multiset(rows)
  {
    if FirstIndex(rows, id).Some? {
      DeleteRemovesOne(rows, id);
    }
  }
}
