/** The four door actions both control handlers accept. */
module Actions {
  import opened Store

  datatype Action = Open | Close | Lock | Unlock

  /** The `action_type` string of each action, as written to the event log. */
  function ActionName(a: Action): string {
    match a
    case Open => "opened"
    case Close => "closed"
    case Lock => "locked"
    case Unlock => "unlocked"
  }

  /** The membership test against `["opened", "closed", "locked", "unlocked"]`:
      an accepted string names exactly one action, any other is refused. */
  function ParseAction(s: string): (r: Option<Action>)
    ensures r.Some? ==> ActionName(r.value) == s
    ensures r == None <==> s !in ["opened", "closed", "locked", "unlocked"]
  {
    if s == "opened" then Some(Open)
    else if s == "closed" then Some(Close)
    else if s == "locked" then Some(Lock)
    else if s == "unlocked" then Some(Unlock)
    else None
  }

  lemma ParseActionName(a: Action)
    ensures ParseAction(ActionName(a)) == Some(a)
  {
  }
}
