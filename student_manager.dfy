/**
  `src/student_manager.c`: the operations a caller uses, built from the
  checks of `Validator` and the table of `Database`. The manager owns the
  counter `g_next_id`, from which every accepted student takes its id.
 */
module StudentManager {
  import opened Wrappers
  import opened Validator
  import opened Database

  /** The name buffer `strncpy` fills from a valid name: the characters
      before the terminator, cut at 63, then NUL up to the end of the
      64-character buffer. */
  function NameBuffer(name: string): (buffer: string)
    ensures |buffer| == NameBufferSize && buffer[NameBufferSize - 1] == '\0'
  {
    var n := if StrLen(name) < MaxNameLength then StrLen(name) else MaxNameLength;
    name[..n] + seq(NameBufferSize - n, _ => '\0')
  }

  /** The manager: the id counter and the table it adds to. */
  class Manager {
    /** `g_next_id` */
    var nextId: int
    /** The ids handed out so far, in order. */
    ghost var issued: seq<int>
    const db: Table

    ghost predicate Valid()
      reads this, db
    {
      db.Valid() && nextId == |issued| + 1 &&
      forall k :: 0 <= k < |issued| ==> issued[k] == k + 1
    }

    /** The counter starts at 1, with no id handed out. */
    constructor (db: Table)
      requires db.Valid()
      ensures Valid() && this.db == db && nextId == 1 && issued == []
    {
      this.db := db;
      nextId := 1;
      issued := [];
    }

    /** `add_student`: a name or a score the checks refuse gives -1 and
        changes nothing. Otherwise the counter moves on first, and then the
        record goes into the table; a full table gives -1 with the id used
        up. On success the result is the new record's id. */
    method AddStudent(name: Option<string>, score: Float) returns (r: int)
      requires Valid()
      modifies this, db, db.students
      ensures Valid()
      ensures ValidateStudentName(name) != 0 || ValidateScore(score) != 0 ==>
        r == -1 && nextId == old(nextId) && issued == old(issued) &&
        db.count == old(db.count) && db.students[..] == old(db.students[..])
      ensures ValidateStudentName(name) == 0 && ValidateScore(score) == 0 ==>
        nextId == old(nextId) + 1 && issued == old(issued) + [old(nextId)]
      ensures ValidateStudentName(name) == 0 && ValidateScore(score) == 0 && old(db.count) >= MaxStudents ==>
        r == -1 && db.count == old(db.count) && db.students[..] == old(db.students[..])
      ensures ValidateStudentName(name) == 0 && ValidateScore(score) == 0 && old(db.count) < MaxStudents ==>
        r == old(nextId) && r >= 1 &&
        db.Contents() == old(db.Contents()) + [Student(r, NameBuffer(name.value), score)]
    {
      if ValidateStudentName(name) != 0 {
        return -1;
      }
      if ValidateScore(score) != 0 {
        return -1;
      }
      var student := Student(nextId, NameBuffer(name.value), score);
      issued := issued + [nextId];
      nextId := nextId + 1;
      var added := db.Add(Some(student));
      if added != 0 {
        return -1;
      }
      return student.id;
    }

    /** `update_student_score`: an id or a score the checks refuse gives -1
        and leaves the table alone; otherwise the table's first record with
        the id takes the score, and the result says whether there was one. */
    method UpdateStudentScore(id: int, score: Float) returns (r: int)
      requires Valid()
      modifies db.students
      ensures Valid()
      ensures r == 0 || r == -1
      ensures ValidateStudentId(id) != 0 || ValidateScore(score) != 0 ==>
        r == -1 && db.students[..] == old(db.students[..])
      ensures ValidateStudentId(id) == 0 && ValidateScore(score) == 0 ==>
        (r == 0 <==> FirstIndex(old(db.Contents()), id).Some?) &&
        db.Contents() == WithScore(old(db.Contents()), id, score)
      ensures db.students[db.count..] == old(db.students[db.count..])
    {
      if ValidateStudentId(id) != 0 {
        return -1;
      }
      if ValidateScore(score) != 0 {
        return -1;
      }
      var updated := db.UpdateScore(id, score);
      if updated != 0 {
        return -1;
      }
      return 0;
    }

    /** `get_total_students`: the number of ids handed out, which is not
        the number of records stored (a failed insert uses an id, a delete
        frees none). */
    method TotalStudents() returns (r: int)
      requires Valid()
      ensures r == |issued| && r >= 0
    {
      return nextId - 1;
    }
  }

  // ---------------------------------------------------------------------------
  // What the operations promise together

  /** A valid name comes back whole from its buffer: the buffer's string is
      the name's, up to the terminator. */
  lemma NameBufferKeepsName(name: string)
    requires ValidateStudentName(Some(name)) == 0
    ensures StrLen(NameBuffer(name)) == StrLen(name)
    ensures NameBuffer(name)[..StrLen(name)] == name[..StrLen(name)]
  {
    var n := StrLen(name);
    var buffer := NameBuffer(name);
    assert buffer == name[..n] + seq(NameBufferSize - n, _ => '\0');
    assert buffer[..n] == name[..n];
    StrLenPrefix(name[..n], seq(NameBufferSize - n, _ => '\0'));
  }

  /** A name longer than the buffer holds is cut to its first 63
      characters. */
  lemma NameBufferTruncates(name: string)
    requires StrLen(name) > MaxNameLength
    ensures NameBuffer(name)[..MaxNameLength] == name[..MaxNameLength]
    ensures StrLen(NameBuffer(name)) == MaxNameLength
  {
    var buffer := NameBuffer(name);
    assert buffer[..MaxNameLength] == name[..MaxNameLength];
    assert '\0' !in buffer[..MaxNameLength];
  }

  /** A manager hands its ids out in strictly increasing order from 1, and
      the id its next successful `AddStudent` returns (`nextId`) is above
      every one it handed out before, so no id is handed out twice. */
  lemma IdsIncrease(m: Manager, i: nat, j: nat)
    requires m.Valid()
    requires i < j < |m.issued|
    ensures 1 <= m.issued[i] < m.issued[j] < m.nextId
  {
  }

  /** A record whose id is above every stored id is the one a lookup by
      that id finds after it is appended; the manager's fresh ids are
      such ids as long as only the manager adds records. */
  lemma FreshIdFound(rows: seq<Student>, s: Student)
    requires forall k :: 0 <= k < |rows| ==> rows[k].id < s.id
    ensures FirstIndex(rows + [s], s.id) == Some(|rows|)
  {
    AppendFound(rows, s, s.id);
  }
}
