/** Role policies: deny wins over allow, and anything not allowed is blocked. */
module Policy {
  import opened Text

  datatype RolePolicy = RolePolicy(allow: seq<string>, deny: seq<string>)

  /** glob stands for `path.Match` with its errors counted as no match. */
  datatype Engine = Engine(roles: map<string, RolePolicy>, glob: (string, string) -> bool)

  datatype Decision = Allow | UnknownRole | DeniedBy(pattern: string) | NotAllowed

  function Decide(e: Engine, role: string, tool: string): Decision {
    if role !in e.roles then UnknownRole
    else
      var p := e.roles[role];
      var d := FirstHit(g => e.glob(g, tool), p.deny);
      if d < |p.deny| then DeniedBy(p.deny[d])
      else if FirstHit(g => e.glob(g, tool), p.allow) < |p.allow| then Allow
      else NotAllowed
  }

  ghost predicate SomeMatch(e: Engine, patterns: seq<string>, tool: string) {
    exists i :: 0 <= i < |patterns| && e.glob(patterns[i], tool)
  }

  ghost predicate IsFirstMatch(e: Engine, patterns: seq<string>, tool: string, i: int) {
    0 <= i < |patterns| && e.glob(patterns[i], tool) && forall j :: 0 <= j < i ==> !e.glob(patterns[j], tool)
  }

  /** A tool is allowed exactly to a known role that no deny pattern and some allow pattern matches; it is
    reported as denied by a pattern exactly if that is the first deny pattern that matches. */
  lemma DecideMeaning(e: Engine, role: string, tool: string)
    ensures Decide(e, role, tool) == Allow <==>
      role in e.roles && !SomeMatch(e, e.roles[role].deny, tool) && SomeMatch(e, e.roles[role].allow, tool)
    ensures Decide(e, role, tool) == UnknownRole <==> role !in e.roles
    ensures forall pattern :: Decide(e, role, tool) == DeniedBy(pattern) <==>
      role in e.roles && exists i :: IsFirstMatch(e, e.roles[role].deny, tool, i) && e.roles[role].deny[i] == pattern
  {
    if role in e.roles {
      var p := e.roles[role];
      var d, a := FirstHit(g => e.glob(g, tool), p.deny), FirstHit(g => e.glob(g, tool), p.allow);
      assert SomeMatch(e, p.deny, tool) <==> d < |p.deny|;
      if d < |p.deny| { assert IsFirstMatch(e, p.deny, tool, d); }
      assert SomeMatch(e, p.allow, tool) <==> a < |p.allow|;
    }
  }
}
