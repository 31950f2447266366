/** The `/mcp` endpoint for concurrent callers: each request is authorised in one critical section of
  the session store and charged in another, with any steps of other requests, new tokens, sweeps and
  time in between. */
module McpGate {
  import opened Text
  import opened Policy
  import opened SessionStore

  // ---------------------------------------------------------------- the handler's tools

  const X_TOOLS := ["x.search_posts_recent", "x.get_posts", "x.get_users", "x.get_users_by_username"]

  /** The immutable part of the handler; extras are the names of the registered extra tools. */
  datatype Handler = Handler(
    staticToken: string, includeXTools: bool, extras: seq<string>, engine: Option<Engine>, config: Config)

  function AllTools(h: Handler): seq<string> {
    (if h.includeXTools then X_TOOLS else []) + h.extras
  }

  /** `hasTool`: the built-in name table, then the handlers registered for extras. */
  predicate HasTool(h: Handler, name: string) {
    (h.includeXTools && name in X_TOOLS) || name in h.extras
  }

  predicate Permits(h: Handler, role: string, name: string) {
    h.engine.Some? && Decide(h.engine.value, role, name) == Allow
  }

  ghost predicate Shown(h: Handler, role: string, name: string) {
    name in AllTools(h) && (role == "" || Permits(h, role, name))
  }

  /** The names a role may use, in the order given. */
  function PermittedOnly(h: Handler, role: string, names: seq<string>): seq<string> {
    if names == [] then []
    else
      var init, last := PermittedOnly(h, role, names[..|names| - 1]), names[|names| - 1];
      if Permits(h, role, last) then init + [last] else init
  }

  lemma {:induction false} PermittedMembers(h: Handler, role: string, names: seq<string>, n: string)
    ensures n in PermittedOnly(h, role, names) <==> n in names && Permits(h, role, n)
  {
    if names != [] {
      hide Permits;
      PermittedMembers(h, role, names[..|names| - 1], n);
      assert names == names[..|names| - 1] + [names[|names| - 1]];
    }
  }

  /** The tools shown to a role are the permitted ones of the list, all of them and in its order. */
  lemma {:induction false} PermittedInOrder(h: Handler, role: string, names: seq<string>) returns (from: seq<nat>)
    ensures IsFilter(n => Permits(h, role, n), names, PermittedOnly(h, role, names), from)
  {
    hide Permits;
    from := [];
    if names != [] {
      hide IsFilter;
      var n := |names| - 1;
      from := PermittedInOrder(h, role, names[..n]);
      FilterMore(n => Permits(h, role, n), names, PermittedOnly(h, role, names[..n]), from);
      if Permits(h, role, names[n]) { from := from + [n]; }
    }
  }

  /** `toolsForRole`: what `tools/list` shows, in table order and with nothing else. */
  method ToolsForRole(h: Handler, role: string) returns (tools: seq<string>)
    ensures tools == if role == "" then AllTools(h) else PermittedOnly(h, role, AllTools(h))
    ensures forall n :: n in tools <==> Shown(h, role, n)
  {
    hide AllTools, Decide;
    var all := AllTools(h);
    forall n ensures n in PermittedOnly(h, role, all) <==> n in all && Permits(h, role, n) {
      PermittedMembers(h, role, all, n);
    }
    if role == "" {
      return all;
    }
    tools := [];
    if h.engine.None? {
      NoneWithoutEngine(h, role, all);
      return;
    }
    for i := 0 to |all|
      invariant tools == PermittedOnly(h, role, all[..i])
    {
      assert all[..i + 1][..i] == all[..i];
      if Decide(h.engine.value, role, all[i]) == Allow {
        tools := tools + [all[i]];
      }
    }
    assert all[..|all|] == all;
  }

  lemma {:induction false} NoneWithoutEngine(h: Handler, role: string, names: seq<string>)
    requires h.engine.None?
    ensures PermittedOnly(h, role, names) == []
  {
    if names != [] { NoneWithoutEngine(h, role, names[..|names| - 1]); }
  }

  /** The routing test and the advertised list agree on which tools exist. */
  lemma HasToolIsListed(h: Handler, name: string)
    ensures HasTool(h, name) <==> name in AllTools(h)
    ensures AllTools(h) == (if h.includeXTools
                            then ["x.search_posts_recent", "x.get_posts", "x.get_users", "x.get_users_by_username"] + h.extras
                            else h.extras)
  {
  }

  // ---------------------------------------------------------------- requests and steps

  datatype Phase =
    | Arrived
    | Unauthorized
    | Authorized(role: string)
    | UnknownTool
    | NotPermitted
    | CapExceeded(counted: bool)   // the refusal of Charge; counted if it used up budget
    | Cleared(role: string)        // past all checks, about to call the tool
    | Dispatched(role: string)

  datatype Request = Request(token: string, tool: string, phase: Phase)

  /** The store beside the ledger of everything ever issued, the clock, and all requests so far. */
  datatype Gate = Gate(store: Entries, ledger: Entries, now: int, requests: map<nat, Request>)

  datatype Step =
    | Tick(now: int)
    | Mint(token: string, role: string)
    | RunSweep(readAt: int)
    | Arrive(id: nat, token: string, tool: string)
    | Authorize(id: nat)
    | Check(id: nat)
    | CallTool(id: nat)

  /** When a step can be taken. Minted tokens are fresh, differ from the static token, and are bound
    to a role, which the minting endpoint demands. */
  predicate Enabled(h: Handler, g: Gate, s: Step) {
    match s
    case Tick(now) => g.now <= now
    case Mint(token, role) => token !in g.ledger && token != h.staticToken && role != ""
    case RunSweep(readAt) => readAt <= g.now
    case Arrive(id, _, _) => id !in g.requests
    case Authorize(id) => id in g.requests && g.requests[id].phase.Arrived?
    case Check(id) => id in g.requests && g.requests[id].phase.Authorized?
    case CallTool(id) => id in g.requests && g.requests[id].phase.Cleared?
  }

  function SetPhase(g: Gate, id: nat, phase: Phase): Gate
    requires id in g.requests
  {
    g.(requests := g.requests[id := g.requests[id].(phase := phase)])
  }

  function OnStore(h: Handler, g: Gate, op: Op): Gate {
    var e := Event(op, g.now);
    g.(store := StoreStep(h.config, g.store, e).0, ledger := LedgerStep(h.config, g.ledger, e).0)
  }

  /** `authorizeToken`: the static token first, then the store. */
  function AuthorizeStep(h: Handler, g: Gate, id: nat): Gate
    requires id in g.requests
  {
    var token := g.requests[id].token;
    if token == h.staticToken then SetPhase(g, id, Authorized(""))
    else
      match ResolvedRole(g.store, token, g.now)
      case Some(role) => SetPhase(OnStore(h, g, Resolve(token)), id, Authorized(role))
      case None => SetPhase(OnStore(h, g, Resolve(token)), id, Unauthorized)
  }

  /** The outcome of charging for a request. */
  function ChargeVerdict(h: Handler, g: Gate, r: Request): Phase
    requires r.phase.Authorized?
  {
    if WithinBudget(g.store, r.token, g.now, h.config.callCap) then Cleared(r.phase.role)
    else CapExceeded(Live(g.store, r.token, g.now))
  }

  /** `handleToolsCall` up to the call of the tool. */
  function CheckStep(h: Handler, g: Gate, id: nat): Gate
    requires id in g.requests && g.requests[id].phase.Authorized?
  {
    var r := g.requests[id];
    var role := r.phase.role;
    if !HasTool(h, r.tool) then SetPhase(g, id, UnknownTool)
    else if role == "" then SetPhase(g, id, Cleared(role))
    else if !Permits(h, role, r.tool) then SetPhase(g, id, NotPermitted)
    else SetPhase(OnStore(h, g, Charge(r.token)), id, ChargeVerdict(h, g, r))
  }

  function Take(h: Handler, g: Gate, s: Step): Gate
    requires Enabled(h, g, s)
  {
    match s
    case Tick(now) => g.(now := now)
    case Mint(token, role) => OnStore(h, g, Issue(token, role))
    case RunSweep(readAt) => OnStore(h, g, Sweep(readAt))
    case Arrive(id, token, tool) => g.(requests := g.requests[id := Request(token, tool, Arrived)])
    case Authorize(id) => AuthorizeStep(h, g, id)
    case Check(id) => CheckStep(h, g, id)
    case CallTool(id) => SetPhase(g, id, Dispatched(g.requests[id].phase.role))
  }

  function Start(now: int): Gate { Gate(map[], map[], now, map[]) }

  /** Whether the steps can be taken one after the other. */
  ghost predicate CanRun(h: Handler, now: int, steps: seq<Step>)
    decreases |steps|, 0
  {
    steps == [] || (
      var n := |steps| - 1;
      CanRun(h, now, steps[..n]) && Enabled(h, After(h, now, steps[..n]), steps[n]))
  }

  ghost function After(h: Handler, now: int, steps: seq<Step>): Gate
    requires CanRun(h, now, steps)
    decreases |steps|, 1
  {
    if steps == [] then Start(now)
    else Take(h, After(h, now, steps[..|steps| - 1]), steps[|steps| - 1])
  }

  // ---------------------------------------------------------------- the invariant

  predicate IsGranted(p: Phase) { p.Cleared? || p.Dispatched? }

  predicate IsSpent(p: Phase) { IsGranted(p) || p == CapExceeded(true) }

  /** The requests let through with a token. */
  function Granted(g: Gate, token: string): set<nat> {
    set id | id in g.requests && g.requests[id].token == token && IsGranted(g.requests[id].phase)
  }

  function DispatchedBy(g: Gate, token: string): set<nat> {
    set id | id in g.requests && g.requests[id].token == token && g.requests[id].phase.Dispatched?
  }

  /** The requests that used up budget of a token. */
  function Spent(g: Gate, token: string): set<nat> {
    set id | id in g.requests && g.requests[id].token == token && IsSpent(g.requests[id].phase)
  }

  function Budget(h: Handler): nat {
    if h.config.callCap > 0 then h.config.callCap else 0
  }

  function Min(a: nat, b: nat): nat { if a < b then a else b }

  /** The role a request carries is the one its token was minted for, and "" only with the static token. */
  ghost predicate RoleOfToken(h: Handler, g: Gate, r: Request) {
    (r.phase.Authorized? || IsGranted(r.phase)) ==>
      if r.token == h.staticToken then r.phase.role == ""
      else r.token in g.ledger && r.phase.role == g.ledger[r.token].role && r.phase.role != ""
  }

  ghost predicate RequestOk(h: Handler, g: Gate, r: Request) {
    && RoleOfToken(h, g, r)
    && (IsGranted(r.phase) ==> Shown(h, r.phase.role, r.tool))
    && (IsSpent(r.phase) && r.token != h.staticToken ==> r.token in g.ledger)
  }

  ghost predicate LedgerOk(h: Handler, g: Gate) {
    forall t :: t in g.ledger ==> t != h.staticToken && g.ledger[t].role != ""
  }

  /** The calls counter of a token is the number of requests that spent budget, and the number let
    through is that or the cap, whichever is less. */
  ghost predicate Balanced(h: Handler, g: Gate, t: string) {
    t in g.ledger ==>
      && g.ledger[t].calls == |Spent(g, t)|
      && |Granted(g, t)| == Min(g.ledger[t].calls, Budget(h))
  }

  ghost predicate Inv(h: Handler, g: Gate) {
    && Follows(g.store, g.ledger, g.now)
    && LedgerOk(h, g)
    && (forall id :: id in g.requests ==> RequestOk(h, g, g.requests[id]))
    && (forall t :: Balanced(h, g, t))
  }

  /** Giving a request a new phase changes the sets of its own token only, and only by that request. */
  lemma PhaseChange(g: Gate, id: nat, phase: Phase, t: string)
    requires id in g.requests && !IsSpent(g.requests[id].phase)
    ensures var g', mine := SetPhase(g, id, phase), g.requests[id].token == t;
            && Spent(g', t) == Spent(g, t) + (if mine && IsSpent(phase) then {id} else {})
            && Granted(g', t) == Granted(g, t) + (if mine && IsGranted(phase) then {id} else {})
            && id !in Spent(g, t) && id !in Granted(g, t)
  {
  }

  lemma SameSets(g: Gate, g': Gate, t: string)
    requires g.requests == g'.requests
    ensures Spent(g', t) == Spent(g, t) && Granted(g', t) == Granted(g, t)
  {
  }

  // ---------------------------------------------------------------- every step keeps it

  /** A store operation that leaves requests and counters alone. */
  lemma QuietStoreStep(h: Handler, g: Gate, op: Op)
    requires Inv(h, g)
    requires op.Resolve? || (op.Sweep? && op.readAt <= g.now)
    ensures Inv(h, OnStore(h, g, op))
  {
    var g' := OnStore(h, g, op);
    StepFollows(h.config, g.store, g.ledger, Event(op, g.now), g.now);
    forall t ensures Balanced(h, g', t) {
      SameSets(g, g', t);
      assert Balanced(h, g, t);
    }
    assert forall id :: id in g'.requests ==> RequestOk(h, g, g'.requests[id]);
  }

  lemma MintKeepsInv(h: Handler, g: Gate, token: string, role: string)
    requires Inv(h, g) && Enabled(h, g, Mint(token, role))
    ensures Inv(h, Take(h, g, Mint(token, role)))
  {
    var g' := OnStore(h, g, Issue(token, role));
    StepFollows(h.config, g.store, g.ledger, Event(Issue(token, role), g.now), g.now);
    assert forall id :: id in g'.requests ==> RequestOk(h, g, g'.requests[id]);
    forall t ensures Balanced(h, g', t) {
      SameSets(g, g', t);
      assert Balanced(h, g, t);
      if t == token { UnissuedHasNone(h, g, t); }
    }
  }

  /** No request got anywhere with a token that was not minted yet. */
  lemma UnissuedHasNone(h: Handler, g: Gate, t: string)
    requires Inv(h, g) && t !in g.ledger && t != h.staticToken
    ensures Spent(g, t) == {} && Granted(g, t) == {}
  {
    forall id | id in g.requests ensures id !in Spent(g, t) && id !in Granted(g, t) {
      assert RequestOk(h, g, g.requests[id]);
    }
  }

  lemma ArriveKeepsInv(h: Handler, g: Gate, id: nat, token: string, tool: string)
    requires Inv(h, g) && Enabled(h, g, Arrive(id, token, tool))
    ensures Inv(h, Take(h, g, Arrive(id, token, tool)))
  {
    var g' := Take(h, g, Arrive(id, token, tool));
    assert forall i :: i in g.requests ==> RequestOk(h, g, g.requests[i]);
    forall t ensures Balanced(h, g', t) {
      assert Spent(g', t) == Spent(g, t) && Granted(g', t) == Granted(g, t);
      assert Balanced(h, g, t);
    }
  }

  /** A phase change that spends nothing. */
  lemma FreePhaseKeepsInv(h: Handler, g: Gate, id: nat, phase: Phase)
    requires Inv(h, g) && id in g.requests && !IsSpent(g.requests[id].phase)
    requires !IsSpent(phase) || (g.requests[id].token == h.staticToken)
    requires RequestOk(h, g, g.requests[id].(phase := phase))
    ensures Inv(h, SetPhase(g, id, phase))
  {
    var g' := SetPhase(g, id, phase);
    assert forall i :: i in g.requests ==> RequestOk(h, g, g.requests[i]);
    forall t ensures Balanced(h, g', t) {
      PhaseChange(g, id, phase, t);
      assert Balanced(h, g, t);
    }
  }

  lemma AuthorizeKeepsInv(h: Handler, g: Gate, id: nat)
    requires Inv(h, g) && Enabled(h, g, Authorize(id))
    ensures Inv(h, Take(h, g, Authorize(id)))
  {
    hide Spent, Granted, Balanced;
    var token := g.requests[id].token;
    if token == h.staticToken {
      FreePhaseKeepsInv(h, g, id, Authorized(""));
    } else {
      QuietStoreStep(h, g, Resolve(token));
      var m := OnStore(h, g, Resolve(token));
      var role := ResolvedRole(g.store, token, g.now);
      FreePhaseKeepsInv(h, m, id, if role.Some? then Authorized(role.value) else Unauthorized);
    }
  }

  lemma ChargeBalances(h: Handler, g: Gate, id: nat, t: string)
    requires Inv(h, g) && id in g.requests && g.requests[id].phase.Authorized? && g.requests[id].phase.role != ""
    ensures var r := g.requests[id];
            Balanced(h, SetPhase(OnStore(h, g, Charge(r.token)), id, ChargeVerdict(h, g, r)), t)
  {
    hide Spent, Granted, AllTools, LedgerOk, Shown, Swept, DropExpired;
    var r := g.requests[id];
    var m := OnStore(h, g, Charge(r.token));
    assert RequestOk(h, g, r);
    SameSets(g, m, t);
    PhaseChange(m, id, ChargeVerdict(h, g, r), t);
    assert Balanced(h, g, t);
  }

  /** Charging a token and settling the request that asked. */
  lemma ChargeKeepsInv(h: Handler, g: Gate, id: nat)
    requires Inv(h, g) && id in g.requests && g.requests[id].phase.Authorized?
    requires var r := g.requests[id]; r.phase.role != "" && Shown(h, r.phase.role, r.tool)
    ensures var r := g.requests[id];
            Inv(h, SetPhase(OnStore(h, g, Charge(r.token)), id, ChargeVerdict(h, g, r)))
  {
    hide Spent, Granted, AllTools, Balanced, Shown;
    var r := g.requests[id];
    var g' := SetPhase(OnStore(h, g, Charge(r.token)), id, ChargeVerdict(h, g, r));
    StepFollows(h.config, g.store, g.ledger, Event(Charge(r.token), g.now), g.now);
    assert forall i :: i in g.requests ==> RequestOk(h, g, g.requests[i]);
    forall t ensures Balanced(h, g', t) { ChargeBalances(h, g, id, t); }
  }

  lemma CheckKeepsInv(h: Handler, g: Gate, id: nat)
    requires Inv(h, g) && Enabled(h, g, Check(id))
    ensures Inv(h, Take(h, g, Check(id)))
  {
    hide Spent, Granted, Balanced, AllTools;
    var r := g.requests[id];
    assert RequestOk(h, g, r);
    HasToolIsListed(h, r.tool);
    if HasTool(h, r.tool) && r.phase.role != "" && Permits(h, r.phase.role, r.tool) {
      ChargeKeepsInv(h, g, id);
    } else {
      FreePhaseKeepsInv(h, g, id,
        if !HasTool(h, r.tool) then UnknownTool else if r.phase.role == "" then Cleared("") else NotPermitted);
    }
  }

  lemma CallKeepsInv(h: Handler, g: Gate, id: nat)
    requires Inv(h, g) && Enabled(h, g, CallTool(id))
    ensures Inv(h, Take(h, g, CallTool(id)))
  {
    var g' := Take(h, g, CallTool(id));
    assert forall i :: i in g.requests ==> RequestOk(h, g, g.requests[i]);
    forall t ensures Balanced(h, g', t) {
      assert Spent(g', t) == Spent(g, t) && Granted(g', t) == Granted(g, t);
      assert Balanced(h, g, t);
    }
  }

  lemma StepKeepsInv(h: Handler, g: Gate, s: Step)
    requires Inv(h, g) && Enabled(h, g, s)
    ensures Inv(h, Take(h, g, s))
  {
    hide Balanced, RequestOk, LedgerOk, AuthorizeStep, CheckStep;
    match s
    case Tick(now) =>
      var g' := Take(h, g, s);
      forall t ensures Balanced(h, g', t) { TickBalanced(h, g, now, t); }
      forall id | id in g'.requests ensures RequestOk(h, g', g'.requests[id]) { TickRequest(h, g, now, id); }
      TickLedger(h, g, now);
    case Mint(token, role) => MintKeepsInv(h, g, token, role);
    case RunSweep(readAt) => QuietStoreStep(h, g, Sweep(readAt));
    case Arrive(id, token, tool) => ArriveKeepsInv(h, g, id, token, tool);
    case Authorize(id) => AuthorizeKeepsInv(h, g, id);
    case Check(id) => CheckKeepsInv(h, g, id);
    case CallTool(id) => CallKeepsInv(h, g, id);
  }

  lemma TickBalanced(h: Handler, g: Gate, now: int, t: string)
    requires Balanced(h, g, t)
    ensures Balanced(h, g.(now := now), t)
  {
    SameSets(g, g.(now := now), t);
  }

  lemma TickRequest(h: Handler, g: Gate, now: int, id: nat)
    requires id in g.requests && RequestOk(h, g, g.requests[id])
    ensures RequestOk(h, g.(now := now), g.requests[id])
  {
  }

  lemma TickLedger(h: Handler, g: Gate, now: int)
    requires LedgerOk(h, g)
    ensures LedgerOk(h, g.(now := now))
  {
  }

  lemma {:induction false} RunKeepsInv(h: Handler, now: int, steps: seq<Step>)
    requires CanRun(h, now, steps)
    ensures Inv(h, After(h, now, steps))
  {
    hide Inv, Enabled, Take;
    if steps == [] {
      StartInv(h, now);
    } else {
      RunKeepsInv(h, now, steps[..|steps| - 1]);
      StepKeepsInv(h, After(h, now, steps[..|steps| - 1]), steps[|steps| - 1]);
    }
  }

  lemma StartInv(h: Handler, now: int)
    ensures Inv(h, Start(now))
  {
  }

  // ---------------------------------------------------------------- what it gives

  /** Over every interleaving, the tool calls made for one minted token never exceed the call cap,
    even counting those cleared and still to be made. */
  lemma CapHolds(h: Handler, now: int, steps: seq<Step>, token: string)
    requires CanRun(h, now, steps) && token != h.staticToken
    ensures var g := After(h, now, steps);
            |DispatchedBy(g, token)| <= |Granted(g, token)| <= Budget(h)
  {
    hide CanRun, Follows;
    RunKeepsInv(h, now, steps);
    var g := After(h, now, steps);
    SubsetSize(DispatchedBy(g, token), Granted(g, token));
    assert Balanced(h, g, token);
    if token !in g.ledger { UnissuedHasNone(h, g, token); }
  }

  lemma {:induction false} SubsetSize(a: set<nat>, b: set<nat>)
    requires a <= b
    ensures |a| <= |b|
  {
    if a != {} {
      var x :| x in a;
      SubsetSize(a - {x}, b - {x});
    }
  }

  /** The counter of a token is the number of its requests that reached the charge while it was live. */
  lemma OnlyChargesSpend(h: Handler, now: int, steps: seq<Step>, token: string)
    requires CanRun(h, now, steps) && token in After(h, now, steps).ledger
    ensures var g := After(h, now, steps);
            g.ledger[token].calls == |Spent(g, token)|
  {
    RunKeepsInv(h, now, steps);
    assert Balanced(h, After(h, now, steps), token);
  }

  /** A request ends, by its check, as unknown exactly if there is no such tool, and as not permitted exactly if
    there is one but its role is not shown it. In both cases it spends nothing: store and ledger stay as they were. And the check of a request with a token other than the
    static one changes a counter exactly if its tool is shown and the token unexpired, by one. */
  lemma RefusedSpendsNothing(h: Handler, now: int, steps: seq<Step>, id: nat)
    requires CanRun(h, now, steps)
    requires var g := After(h, now, steps);
             Enabled(h, g, Check(id)) && g.requests[id].token != h.staticToken
    ensures var g := After(h, now, steps);
            var g', r := Take(h, g, Check(id)), g.requests[id];
            && r.token in g.ledger && r.token in g'.ledger
            && (r.tool !in AllTools(h) <==> g'.requests[id].phase == UnknownTool)
            && (r.tool in AllTools(h) && !Shown(h, r.phase.role, r.tool) <==> g'.requests[id].phase == NotPermitted)
            && (!Shown(h, r.phase.role, r.tool) ==> g'.store == g.store && g'.ledger == g.ledger)
            && g'.ledger[r.token].calls == g.ledger[r.token].calls
                 + (if Shown(h, r.phase.role, r.tool) && g.now <= g.ledger[r.token].expiresAt then 1 else 0)
            && (forall t :: t in g.ledger && t != r.token ==> t in g'.ledger && g'.ledger[t] == g.ledger[t])
  {
    hide CanRun, Spent, Granted, AllTools, Balanced;
    RunKeepsInv(h, now, steps);
    var g := After(h, now, steps);
    var r := g.requests[id];
    assert RequestOk(h, g, r);
    HasToolIsListed(h, r.tool);
  }

  /** A token is in the ledger exactly if some step of the run minted it, and then with the role of that mint, and
    for the configured time from it. */
  lemma {:induction false} LedgerIsMinted(h: Handler, now: int, steps: seq<Step>, token: string) returns (k: nat)
    requires CanRun(h, now, steps)
    ensures token in After(h, now, steps).ledger ==>
              && k < |steps| && CanRun(h, now, steps[..k]) && steps[k].Mint? && steps[k].token == token
              && After(h, now, steps).ledger[token].role == steps[k].role
              && After(h, now, steps).ledger[token].expiresAt == After(h, now, steps[..k]).now + h.config.ttl
    ensures token !in After(h, now, steps).ledger ==> forall i :: 0 <= i < |steps| && steps[i].Mint? ==> steps[i].token != token
  {
    k := 0;
    if steps != [] {
      hide HasTool, Permits, Swept, DropExpired;
      var n := |steps| - 1;
      var init := steps[..n];
      assert forall i :: 0 <= i < n ==> init[i] == steps[i];
      if steps[n].Mint? && steps[n].token == token {
        k := n;
      } else {
        k := LedgerIsMinted(h, now, init, token);
        LedgerKeeps(h, After(h, now, init), steps[n], token);
        if token in After(h, now, init).ledger { assert init[..k] == steps[..k]; }
      }
    }
  }

  /** No other step adds to the ledger, or changes role or expiry in it. */
  lemma LedgerKeeps(h: Handler, g: Gate, s: Step, token: string)
    requires Enabled(h, g, s) && !(s.Mint? && s.token == token)
    ensures token in Take(h, g, s).ledger <==> token in g.ledger
    ensures token in g.ledger ==> Take(h, g, s).ledger[token].role == g.ledger[token].role
    ensures token in g.ledger ==> Take(h, g, s).ledger[token].expiresAt == g.ledger[token].expiresAt
  {
  }

  /** A dispatched request carries the role its token was minted for, and its tool is one that
    `tools/list` shows that role. */
  lemma DispatchIsShown(h: Handler, now: int, steps: seq<Step>, id: nat)
    requires CanRun(h, now, steps)
    requires var g := After(h, now, steps); id in g.requests && g.requests[id].phase.Dispatched?
    ensures var g := After(h, now, steps);
            var r := g.requests[id];
            && Shown(h, r.phase.role, r.tool)
            && (r.token != h.staticToken ==>
                  r.token in g.ledger && r.phase.role == g.ledger[r.token].role && Permits(h, r.phase.role, r.tool))
  {
    RunKeepsInv(h, now, steps);
    var g := After(h, now, steps);
    assert RequestOk(h, g, g.requests[id]);
  }

  /** A shown tool, an unexpired token and budget left: the request is cleared, and nothing else is needed. */
  lemma ShownIsCleared(h: Handler, now: int, steps: seq<Step>, id: nat)
    requires CanRun(h, now, steps)
    requires var g := After(h, now, steps);
             Enabled(h, g, Check(id)) && g.requests[id].token != h.staticToken
    ensures var g := After(h, now, steps);
            var r := g.requests[id];
            && r.token in g.ledger
            && (Take(h, g, Check(id)).requests[id].phase == Cleared(r.phase.role) <==>
                  && Shown(h, r.phase.role, r.tool)
                  && g.now <= g.ledger[r.token].expiresAt
                  && |Spent(g, r.token)| < h.config.callCap)
  {
    hide CanRun, Spent, Granted, AllTools;
    RunKeepsInv(h, now, steps);
    var g := After(h, now, steps);
    var r := g.requests[id];
    assert RequestOk(h, g, r);
    assert Balanced(h, g, r.token);
    HasToolIsListed(h, r.tool);
  }

  /** Authorisation of a token other than the static one succeeds, with the minted role, exactly when the
    token was minted and has not expired. */
  lemma LiveIsAuthorized(h: Handler, now: int, steps: seq<Step>, id: nat)
    requires CanRun(h, now, steps)
    requires var g := After(h, now, steps);
             Enabled(h, g, Authorize(id)) && g.requests[id].token != h.staticToken
    ensures var g := After(h, now, steps);
            var t := g.requests[id].token;
            Take(h, g, Authorize(id)).requests[id].phase ==
              if t in g.ledger && g.now <= g.ledger[t].expiresAt then Authorized(g.ledger[t].role) else Unauthorized
  {
    hide CanRun, Spent, Granted, AllTools, Balanced, RequestOk;
    RunKeepsInv(h, now, steps);
  }

  /** The static token is the administrator's: in every run a request with it is authorised without a role
    and cleared for every tool there is, and for no other; neither step touches the store or the ledger. */
  lemma StaticTokenPasses(h: Handler, now: int, steps: seq<Step>, id: nat)
    requires CanRun(h, now, steps)
    requires var g := After(h, now, steps); id in g.requests && g.requests[id].token == h.staticToken
    ensures var g := After(h, now, steps);
            Enabled(h, g, Authorize(id)) ==>
              var g' := Take(h, g, Authorize(id));
              g'.requests[id].phase == Authorized("") && g'.store == g.store && g'.ledger == g.ledger
    ensures var g := After(h, now, steps);
            Enabled(h, g, Check(id)) ==>
              var g' := Take(h, g, Check(id));
              && g'.requests[id].phase == (if g.requests[id].tool in AllTools(h) then Cleared("") else UnknownTool)
              && g'.store == g.store && g'.ledger == g.ledger
  {
    hide CanRun, Spent, Granted, AllTools, Balanced;
    RunKeepsInv(h, now, steps);
    var g := After(h, now, steps);
    assert RequestOk(h, g, g.requests[id]);
    HasToolIsListed(h, g.requests[id].tool);
  }
}
