/** The student API of myapi.py: a module-level dictionary from student id to
    record, read by lookups and changed in place by create, update and delete.
    Python dictionaries iterate in insertion order, which the by-name search
    depends on; `order` keeps that order beside the map. */
module Students {
  import opened Wrappers

  /** One record: the dictionary `{"name", "age", "class"}`. */
  datatype Student = Student(name: string, age: int, className: string)

  /** What a handler returns: a record, `{"error": ...}` or `{"message": ...}`. */
  datatype Reply = Record(student: Student) | Error(error: string) | Message(message: string)

  /** The entries of `m` for `keys`, in that order. */
  function EntriesOf(keys: seq<int>, m: map<int, Student>): (entries: seq<(int, Student)>)
    requires forall i :: 0 <= i < |keys| ==> keys[i] in m
    ensures |entries| == |keys|
    ensures forall i :: 0 <= i < |keys| ==> entries[i] == (keys[i], m[keys[i]])
  {
    if keys == [] then [] else [(keys[0], m[keys[0]])] + EntriesOf(keys[1..], m)
  }

  /** `keys` without `id`, the others keeping their order. */
  function Without(keys: seq<int>, id: int): (r: seq<int>)
    ensures forall k :: k in r <==> k in keys && k != id
  {
    if keys == [] then []
    else if keys[0] == id then Without(keys[1..], id)
    else [keys[0]] + Without(keys[1..], id)
  }

  class StudentTable {
    /** The `students` dictionary. */
    var students: map<int, Student>
    /** Its keys in insertion order. */
    var order: seq<int>

    /** `order` lists every id of the table exactly once. */
    ghost predicate Valid()
      reads this
    {
      && Distinct(order)
      && (forall i :: 0 <= i < |order| ==> order[i] in students)
      && (forall id :: id in students ==> id in order)
    }

    /** The table as the module starts with it: student 1, John. */
    constructor ()
      ensures Valid()
      ensures students == map[1 := Student("John", 22, "Computer year 12")] && order == [1]
    {
      students := map[1 := Student("John", 22, "Computer year 12")];
      order := [1];
    }

    /** `get_students`: every entry, in insertion order. */
    function GetStudents(): (entries: seq<(int, Student)>)
      requires Valid()
      reads this
      ensures |entries| == |students| == |order|
      ensures forall i :: 0 <= i < |order| ==> entries[i] == (order[i], students[order[i]])
      ensures forall id :: id in students ==> exists i :: 0 <= i < |entries| && entries[i].0 == id
    {
      CountIds();
      EntriesOf(order, students)
    }

    lemma CountIds()
      requires Valid()
      ensures |students| == |order|
    {
      var ids := set i | 0 <= i < |order| :: order[i];
      forall id | id in students
        ensures id in ids
      {
        var k :| 0 <= k < |order| && order[k] == id;
      }
      assert ids == students.Keys;
      DistinctCount(order);
    }

    /** `get_student` (`/students/{id}`): the record, or "Student not found". */
    function GetStudent(id: int): (r: Reply)
      reads this
      ensures r.Record? <==> id in students
      ensures r.Record? ==> r.student == students[id]
      ensures !r.Record? ==> r == Error("Student not found")
    {
      if id !in students then Error("Student not found") else Record(students[id])
    }

    /** `get_student` (`/get-student/{id}?name=`): the record when the id exists
        and its name equals the query; an error naming what did not match. */
    function GetStudentWithName(id: int, name: Option<string>): (r: Reply)
      reads this
      ensures r.Record? <==> id in students && name == Some(students[id].name)
      ensures r.Record? ==> r.student == students[id]
      ensures id !in students ==> r == Error("Student id not found")
      ensures id in students && name != Some(students[id].name) ==> r == Error("Student name not found")
    {
      if id !in students then Error("Student id not found")
      else if Some(students[id].name) == name then Record(students[id])
      else Error("Student name not found")
    }

    /** `get_student_by_name`: the first record, in insertion order, whose name
        equals the query; "Student not found" when none does (always so when
        no name is given). */
    method GetStudentByName(name: Option<string>) returns (r: Reply)
      requires Valid()
      ensures r.Record? <==> exists id :: id in students && name == Some(students[id].name)
      ensures r.Record? ==> exists i :: 0 <= i < |order| && r.student == students[order[i]] &&
                              name == Some(students[order[i]].name) &&
                              forall j :: 0 <= j < i ==> name != Some(students[order[j]].name)
      ensures !r.Record? ==> r == Error("Student not found")
    {
      var i := 0;
      while i < |order|
        invariant 0 <= i <= |order|
        invariant forall j :: 0 <= j < i ==> name != Some(students[order[j]].name)
      {
        var id := order[i];
        if Some(students[id].name) == name {
          return Record(students[id]);
        }
        i := i + 1;
      }
      forall id | id in students
        ensures name != Some(students[id].name)
      {
        var k :| 0 <= k < |order| && order[k] == id;
      }
      return Error("Student not found");
    }

    /** `create_student`: "Student already exists" for a taken id; otherwise
        stores the record under the id (last in insertion order) and returns it. */
    method CreateStudent(id: int, student: Student) returns (r: Reply)
      requires Valid()
      modifies this
      ensures Valid()
      ensures id in old(students) ==>
                r == Error("Student already exists") && students == old(students) && order == old(order)
      ensures id !in old(students) ==>
                r == Record(student) && students == old(students)[id := student] && order == old(order) + [id]
    {
      if id in students {
        return Error("Student already exists");
      }
      students := students[id := student];
      order := order + [id];
      return Record(students[id]);
    }

    /** `update_student`: "Student not found" for an unknown id; otherwise
        replaces that id's whole record, keeping its place in the order. */
    method UpdateStudent(id: int, student: Student) returns (r: Reply)
      requires Valid()
      modifies this
      ensures Valid() && order == old(order)
      ensures id !in old(students) ==> r == Error("Student not found") && students == old(students)
      ensures id in old(students) ==> r == Record(student) && students == old(students)[id := student]
    {
      if id !in students {
        return Error("Student not found");
      }
      students := students[id := student];
      return Record(students[id]);
    }

    /** `delete_student`: "Student not found" for an unknown id; otherwise
        removes that id alone. */
    method DeleteStudent(id: int) returns (r: Reply)
      requires Valid()
      modifies this
      ensures Valid()
      ensures id !in old(students) ==>
                r == Error("Student not found") && students == old(students) && order == old(order)
      ensures id in old(students) ==>
                r == Message("Student deleted successfully") && students == old(students) - {id} &&
                order == Without(old(order), id)
    {
      if id !in students {
        return Error("Student not found");
      }
      WithoutDistinct(order, id);
      students := students - {id};
      order := Without(order, id);
      forall i | 0 <= i < |order|
        ensures order[i] in students
      {
        assert order[i] in order;
      }
      return Message("Student deleted successfully");
    }
  }

  predicate Distinct(s: seq<int>) {
    forall i, j :: 0 <= i < j < |s| ==> s[i] != s[j]
  }

  /** Removing an id from an order without repetitions leaves none. */
  lemma {:induction false} WithoutDistinct(keys: seq<int>, id: int)
    requires Distinct(keys)
    ensures Distinct(Without(keys, id))
  {
    if keys != [] {
      WithoutDistinct(keys[1..], id);
      assert keys[0] !in keys[1..];
    }
  }

  /** Removing an id that is not there changes nothing. */
  lemma {:induction false} WithoutAbsent(keys: seq<int>, id: int)
    requires id !in keys
    ensures Without(keys, id) == keys
  {
    if keys != [] {
      WithoutAbsent(keys[1..], id);
      assert [keys[0]] + keys[1..] == keys;
    }
  }

  /** Removing an id from an order without repetitions cuts out its one
      position; every other id keeps its place relative to the rest. */
  lemma {:induction false} WithoutAt(keys: seq<int>, id: int, i: int)
    requires Distinct(keys) && 0 <= i < |keys| && keys[i] == id
    ensures Without(keys, id) == keys[..i] + keys[i + 1..]
  {
    if i == 0 {
      assert keys[0] !in keys[1..];
      WithoutAbsent(keys[1..], id);
    } else {
      WithoutAt(keys[1..], id, i - 1);
      assert keys[1..][..i - 1] == keys[1..i];
      assert keys[1..][i..] == keys[i + 1..];
      assert [keys[0]] + keys[1..i] == keys[..i];
    }
  }

  /** A sequence without repetitions has as many distinct elements as positions. */
  lemma {:induction false} DistinctCount(s: seq<int>)
    requires Distinct(s)
    ensures |set i | 0 <= i < |s| :: s[i]| == |s|
  {
    if s != [] {
      var last := |s| - 1;
      DistinctCount(s[..last]);
      var front := set i | 0 <= i < last :: s[..last][i];
      var all := set i | 0 <= i < |s| :: s[i];
      assert all == front + {s[last]};
      assert s[last] !in front;
    }
  }
}
