/** The task document. The task schema file (src/models/task.js) is not part of this model; the
    schema used here is: `description` a required, trimmed string; `completed` a boolean that
    defaults to false; `owner` the required id of a user. */
module TaskModel {

  import opened Common
  import opened Text

  datatype Task = Task(description: string, completed: bool, owner: UserId)

  /** The schema paths a request body can set on a task. */
  const DESCRIPTION: string := "description"
  const COMPLETED: string := "completed"

  /** A stored task satisfies its schema. */
  predicate TaskWellFormed(t: Task)
  {
    t.description != [] && Trim(t.description) == t.description
  }

  /** Assigning `v` to `description`: the trim setter, then the required validator. */
  function CastDescription(v: Value): (r: Option<string>)
    ensures r.Some? <==> v.Str? && exists i :: 0 <= i < |v.text| && !IsSpace(v.text[i])
    ensures r.Some? ==> r.value == Trim(v.text)
    ensures r.Some? ==> r.value != [] && Trim(r.value) == r.value
  {
    if !v.Str? then None
    else
      TrimEmptyIffBlank(v.text);
      if Trim(v.text) == [] then None
      else
        TrimIdempotent(v.text);
        Some(Trim(v.text))
  }

  /** Assigning `v` to `completed`. */
  function CastCompleted(v: Value): (r: Option<bool>)
    ensures r.Some? <==> v.Boolean?
    ensures r.Some? ==> r.value == v.b
  {
    if v.Boolean? then Some(v.b) else None
  }

  /** Trimming leaves nothing exactly when the text is all white space. */
  lemma TrimEmptyIffBlank(s: string)
    ensures Trim(s) == [] <==> forall i :: 0 <= i < |s| ==> IsSpace(s[i])
  {
    TrimIsInfix(s);
    var i :| TrimmedAt(s, Trim(s), i);
    if Trim(s) != [] {
      assert !IsSpace(s[i]);
    }
  }
}
