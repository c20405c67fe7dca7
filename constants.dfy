/** The task status and priority vocabularies and their membership tests. */
module TaskConstants {

  const TaskStatusPending := "pending"
  const TaskStatusCompleted := "completed"

  const TaskPriorityLow := "low"
  const TaskPriorityMedium := "medium"
  const TaskPriorityHigh := "high"

  const ValidTaskStatuses: seq<string> := [TaskStatusPending, TaskStatusCompleted]
  const ValidTaskPriorities: seq<string> := [TaskPriorityLow, TaskPriorityMedium, TaskPriorityHigh]

  /**
   * The early-return scan of a list: true as soon as an element equals `x`,
   * false once the list is exhausted.
   */
  function Scan(list: seq<string>, x: string): (found: bool)
    ensures found <==> exists i :: 0 <= i < |list| && list[i] == x
  {
    if list == [] then false
    else if list[0] == x then true
    else
      var rest := Scan(list[1..], x);
      assert forall i :: 0 < i < |list| ==> list[i] == list[1..][i - 1];
      rest
  }

  /** A status is valid exactly when it is "pending" or "completed", compared as exact strings. */
  function IsValidStatus(status: string): (r: bool)
    ensures r <==> status == "pending" || status == "completed"
  {
    assert ValidTaskStatuses[0] == "pending" && ValidTaskStatuses[1] == "completed";
    Scan(ValidTaskStatuses, status)
  }

  /** A priority is valid exactly when it is "low", "medium" or "high", compared as exact strings. */
  function IsValidPriority(priority: string): (r: bool)
    ensures r <==> priority == "low" || priority == "medium" || priority == "high"
  {
    assert ValidTaskPriorities[0] == "low" && ValidTaskPriorities[1] == "medium";
    assert ValidTaskPriorities[2] == "high";
    Scan(ValidTaskPriorities, priority)
  }

  /** Matching is case-sensitive and does not trim: callers lower-case and trim first. */
  lemma MatchingIsExact()
    ensures !IsValidPriority("High") && !IsValidPriority(" high") && !IsValidPriority("HIGH")
    ensures !IsValidStatus("Pending") && !IsValidStatus("pending ")
    ensures IsValidPriority("high") && IsValidStatus("pending")
  {
  }

  /** The empty string is neither a status nor a priority. */
  lemma EmptyIsInvalid()
    ensures !IsValidStatus("") && !IsValidPriority("")
  {
  }

  /** No string is both a status and a priority. */
  lemma StatusesAndPrioritiesDisjoint(s: string)
    ensures !(IsValidStatus(s) && IsValidPriority(s))
  {
  }
}
