/** The routine form of `src/pages/Fitness.jsx`: a routine name and a list of exercise
    objects that the page adds to, filters, and edits field by field in place. */
module Fitness {
  import opened Wrappers
  import opened Text

  // ---------------------------------------------------------------------------
  // parseInt

  /** What `parseInt` gives: an integer or NaN. */
  datatype Count = Int(n: int) | NaN

  function HexDigitValue(c: char): Option<nat> {
    if IsDigit(c) then Some(DigitValue(c))
    else if 'a' <= c <= 'f' then Some(c as int - 'a' as int + 10)
    else if 'A' <= c <= 'F' then Some(c as int - 'A' as int + 10)
    else None
  }

  /** The length of the run of hexadecimal digits at the start of `s`. */
  function HexRun(s: string): (n: nat)
    ensures n <= |s| && forall i :: 0 <= i < n ==> HexDigitValue(s[i]).Some?
  {
    if s != [] && HexDigitValue(s[0]).Some? then 1 + HexRun(s[1..]) else 0
  }

  function HexRunValue(s: string): nat
    requires forall i :: 0 <= i < |s| ==> HexDigitValue(s[i]).Some?
  {
    if s == [] then 0 else 16 * HexRunValue(s[..|s| - 1]) + HexDigitValue(s[|s| - 1]).value
  }

  /** `parseInt(s)` with no radix: leading white space and one sign are skipped, a
      `0x` or `0X` prefix selects base 16, and the longest run of digits is read; NaN
      when there is none. */
  function ParseInt(s: string): (r: Count)
  {
    var t := TrimStart(s);
    var negative := t != [] && t[0] == '-';
    var u := if t != [] && (t[0] == '-' || t[0] == '+') then t[1..] else t;
    var sign := if negative then -1 else 1;
    if |u| >= 2 && u[0] == '0' && (u[1] == 'x' || u[1] == 'X') then
      var n := HexRun(u[2..]);
      if n == 0 then NaN else Int(sign * HexRunValue(u[2..][..n]))
    else
      var n := DigitRun(u);
      if n == 0 then NaN else Int(sign * DigitsValue(u[..n]))
  }

  lemma TrimStartNone(s: string)
    requires s != [] && !IsJsWhitespace(s[0])
    ensures TrimStart(s) == s
  {
  }

  /** `parseInt(String(n))` is `n`. */
  lemma ParseIntOfString(n: int)
    ensures ParseInt(IntToString(n)) == Int(n)
  {
    var s := IntToString(n);
    var m: nat := if n < 0 then -n else n;
    var d := NatToString(m);
    TrimStartNone(s);
    DigitRunOf(m, []);
    assert d + [] == d;
    NatToStringValue(m);
    if n < 0 {
      assert s[1..] == d;
    }
    assert |d| >= 2 ==> IsDigit(d[1]);
  }

  /** `parseInt` of a text with no digit where a number must start is NaN. */
  lemma ParseIntEmpty()
    ensures ParseInt("") == NaN && ParseInt("-") == NaN
  {
    assert DigitRun("") == 0;
  }

  // ---------------------------------------------------------------------------
  // Exercises and routines

  class Exercise {
    var name: string
    var sets: Count
    var reps: Count

    constructor(name: string, sets: Count, reps: Count)
      ensures this.name == name && this.sets == sets && this.reps == reps
    {
      this.name := name;
      this.sets := sets;
      this.reps := reps;
    }

    /** `{ name: '', sets: 3, reps: 10 }`. */
    predicate IsDefault()
      reads this
    {
      name == "" && sets == Int(3) && reps == Int(10)
    }
  }

  /** The field `updateExercise` writes and the value it writes there. */
  datatype ExerciseField = NameField(name: string) | SetsField(sets: Count) | RepsField(reps: Count)

  /** A routine as loaded: its `exercises` may be missing. */
  datatype Routine = Routine(name: string, exercises: Option<seq<Exercise>>)

  /** `list.filter((_, i) => i !== index)`. */
  function DropIndex<T>(s: seq<T>, index: int): (r: seq<T>)
    ensures 0 <= index < |s| ==> r == s[..index] + s[index + 1..]
    ensures !(0 <= index < |s|) ==> r == s
    decreases |s|
  {
    if s == [] then []
    else if index == 0 then s[1..]
    else [s[0]] + DropIndex(s[1..], index - 1)
  }

  /** The form state: `formData`, `editingRoutine` and `showForm`. */
  class RoutineForm {
    var name: string
    var exercises: seq<Exercise>
    var editing: Option<Routine>
    var showForm: bool

    /** The initial form holds one default exercise. */
    constructor()
      ensures name == "" && |exercises| == 1 && fresh(exercises[0]) && exercises[0].IsDefault()
      ensures editing == None && !showForm
    {
      var e := new Exercise("", Int(3), Int(10));
      name := "";
      exercises := [e];
      editing := None;
      showForm := false;
    }

    /** The remove button is shown only while there is more than one exercise. */
    predicate RemoveOffered()
      reads this
    {
      |exercises| > 1
    }

    method AddExercise()
      modifies this
      ensures name == old(name) && editing == old(editing) && showForm == old(showForm)
      ensures |exercises| == |old(exercises)| + 1 && exercises[..|old(exercises)|] == old(exercises)
      ensures fresh(exercises[|exercises| - 1]) && exercises[|exercises| - 1].IsDefault()
    {
      var e := new Exercise("", Int(3), Int(10));
      exercises := exercises + [e];
    }

    /** Removes exactly the exercise at `index`; any other index leaves the list as it
        is.  Offered only while there is more than one exercise, so one remains. */
    method RemoveExercise(index: int)
      modifies this
      ensures name == old(name) && editing == old(editing) && showForm == old(showForm)
      ensures exercises == DropIndex(old(exercises), index)
      ensures old(RemoveOffered()) ==> |exercises| >= 1
    {
      exercises := DropIndex(exercises, index);
    }

    /** `newExercises[index][field] = value`: the exercise object itself changes, so
        every list that holds it (the routine being edited among them) sees the change. */
    method UpdateExercise(index: nat, field: ExerciseField)
      requires index < |exercises|
      modifies exercises[index]
      ensures exercises == old(exercises)
      ensures var e := exercises[index];
        match field
        case NameField(v) => e.name == v && e.sets == old(e.sets) && e.reps == old(e.reps)
        case SetsField(v) => e.sets == v && e.name == old(e.name) && e.reps == old(e.reps)
        case RepsField(v) => e.reps == v && e.name == old(e.name) && e.sets == old(e.sets)
    {
      var e := exercises[index];
      match field
      case NameField(v) => e.name := v;
      case SetsField(v) => e.sets := v;
      case RepsField(v) => e.reps := v;
    }

    /** `startEdit(routine)`: the form takes the routine's own exercise objects, or one
        default exercise only when the routine has none listed; an empty list is kept. */
    method StartEdit(routine: Routine)
      modifies this
      ensures editing == Some(routine) && name == routine.name && showForm
      ensures routine.exercises.Some? ==> exercises == routine.exercises.value
      ensures routine.exercises.None? ==>
        |exercises| == 1 && fresh(exercises[0]) && exercises[0].IsDefault()
    {
      editing := Some(routine);
      name := routine.name;
      if routine.exercises.Some? {
        exercises := routine.exercises.value;
      } else {
        var e := new Exercise("", Int(3), Int(10));
        exercises := [e];
      }
      showForm := true;
    }

    /** After a successful save: the form is hidden, editing ends, and the form is back
        to one default exercise. */
    method ResetAfterSubmit()
      modifies this
      ensures !showForm && editing == None && name == ""
      ensures |exercises| == 1 && fresh(exercises[0]) && exercises[0].IsDefault()
    {
      showForm := false;
      editing := None;
      var e := new Exercise("", Int(3), Int(10));
      name := "";
      exercises := [e];
    }
  }

  /** Removing one index from a list of more than one leaves at least one. */
  lemma DropIndexKeepsOne<T>(s: seq<T>, index: int)
    requires |s| > 1
    ensures |DropIndex(s, index)| >= 1 && |DropIndex(s, index)| >= |s| - 1
  {
  }

  /** The other elements keep their order. */
  lemma DropIndexOrder<T>(s: seq<T>, index: int)
    requires 0 <= index < |s|
    ensures var r := DropIndex(s, index);
      |r| == |s| - 1 && (forall j :: 0 <= j < index ==> r[j] == s[j])
      && (forall j :: index <= j < |r| ==> r[j] == s[j + 1])
  {
  }
}
