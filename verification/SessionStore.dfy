/** Session tokens with a lifetime and a call cap: the store that deletes expired entries lazily and
  in sweeps, and a ledger that never deletes, which it is proved to follow on every run. */
module SessionStore {
  import opened Text

  datatype Entry = Entry(role: string, expiresAt: int, calls: nat)

  type Entries = map<string, Entry>

  predicate Expired(e: Entry, now: int) { now > e.expiresAt }

  // ---------------------------------------------------------------- critical sections, as functions

  function Live(m: Entries, token: string, now: int): bool {
    token in m && !Expired(m[token], now)
  }

  function DropExpired(m: Entries, token: string, now: int): Entries {
    if token in m && Expired(m[token], now) then m - {token} else m
  }

  function Swept(m: Entries, now: int): Entries {
    map t | t in m && !Expired(m[t], now) :: m[t]
  }

  function Counted(m: Entries, token: string): Entries
    requires token in m
  {
    m[token := m[token].(calls := m[token].calls + 1)]
  }

  function Charged(m: Entries, token: string, now: int): Entries {
    if Live(m, token, now) then Counted(m, token) else DropExpired(m, token, now)
  }

  function ResolvedRole(m: Entries, token: string, now: int): Option<string> {
    if Live(m, token, now) then Some(m[token].role) else None
  }

  function WithinBudget(m: Entries, token: string, now: int, callCap: int): bool {
    Live(m, token, now) && m[token].calls + 1 <= callCap
  }

  /** `session.Store`. Each method is one critical section; now is the clock as that section reads it,
    except for Sweep, whose now was read before the lock was taken. */
  class Store {
    var entries: Entries
    const ttl: int
    const callCap: int

    constructor (ttl: int, callCap: int)
      ensures entries == map[] && this.ttl == ttl && this.callCap == callCap
    {
      entries := map[];
      this.ttl, this.callCap := ttl, callCap;
    }

    method Issue(token: string, role: string, now: int)
      modifies this
      ensures entries == old(entries)[token := Entry(role, now + ttl, 0)]
    {
      entries := entries[token := Entry(role, now + ttl, 0)];
    }

    method Resolve(token: string, now: int) returns (role: Option<string>)
      modifies this
      ensures role == ResolvedRole(old(entries), token, now)
      ensures entries == DropExpired(old(entries), token, now)
    {
      if token !in entries {
        return None;
      }
      var e := entries[token];
      if now > e.expiresAt {
        entries := entries - {token};
        return None;
      }
      return Some(e.role);
    }

    method Valid(token: string, now: int) returns (ok: bool)
      modifies this
      ensures ok == Live(old(entries), token, now)
      ensures entries == DropExpired(old(entries), token, now)
    {
      var role := Resolve(token, now);
      return role.Some?;
    }

    method Charge(token: string, now: int) returns (ok: bool)
      modifies this
      ensures ok == WithinBudget(old(entries), token, now, callCap)
      ensures entries == Charged(old(entries), token, now)
    {
      if token !in entries {
        return false;
      }
      var e := entries[token];
      if now > e.expiresAt {
        entries := entries - {token};
        return false;
      }
      e := e.(calls := e.calls + 1);
      entries := entries[token := e];
      return e.calls <= callCap;
    }

    method Sweep(now: int)
      modifies this
      ensures entries == Swept(old(entries), now)
    {
      var left := entries.Keys;
      while left != {}
        invariant left <= old(entries).Keys
        invariant entries == map t | t in old(entries) && (t in left || !Expired(old(entries)[t], now)) :: old(entries)[t]
        decreases |left|
      {
        var token :| token in left;
        if now > entries[token].expiresAt {
          entries := entries - {token};
        }
        left := left - {token};
      }
    }

    /** One operation of a run, as the theorems below speak of it. */
    method Apply(e: Event) returns (answer: Answer)
      modifies this
      ensures (entries, answer) == StoreStep(Config(ttl, callCap), old(entries), e)
    {
      match e.op
      case Issue(token, role) =>
        Issue(token, role, e.now);
        answer := Done;
      case Resolve(token) =>
        var role := Resolve(token, e.now);
        answer := Role(role);
      case Charge(token) =>
        var ok := Charge(token, e.now);
        answer := Allowed(ok);
      case Sweep(readAt) =>
        Sweep(readAt);
        answer := Done;
    }
  }

  /** A sweep leaves no entry that was expired at the time it read, and every other as it was. */
  lemma SweepClears(c: Config, m: Entries, e: Event)
    requires e.op.Sweep?
    ensures var m' := StoreStep(c, m, e).0;
            && (forall t :: t in m' ==> e.op.readAt <= m'[t].expiresAt)
            && (forall t :: t in m && e.op.readAt <= m[t].expiresAt ==> t in m' && m'[t] == m[t])
            && (forall t :: t in m' ==> t in m)
  {
  }

  /** Resolving or charging a token drops its entry exactly if it is expired, and no other. */
  lemma LazyDrop(c: Config, m: Entries, e: Event)
    requires e.op.Resolve? || e.op.Charge?
    ensures var m' := StoreStep(c, m, e).0;
            && (e.op.token in m' <==> e.op.token in m && e.now <= m[e.op.token].expiresAt)
            && (forall t :: t != e.op.token ==> (t in m' <==> t in m) && (t in m ==> m'[t] == m[t]))
  {
  }

  // ---------------------------------------------------------------- runs

  datatype Op =
    | Issue(token: string, role: string)
    | Resolve(token: string)
    | Charge(token: string)
    | Sweep(readAt: int)

  /** An operation and the clock when it holds the lock. */
  datatype Event = Event(op: Op, now: int)

  datatype Answer = Done | Role(role: Option<string>) | Allowed(ok: bool)

  datatype Config = Config(ttl: int, callCap: int)

  /** The store's next entries and answer. */
  function StoreStep(c: Config, m: Entries, e: Event): (Entries, Answer) {
    match e.op
    case Issue(t, role) => (m[t := Entry(role, e.now + c.ttl, 0)], Done)
    case Resolve(t) => (DropExpired(m, t, e.now), Role(ResolvedRole(m, t, e.now)))
    case Charge(t) => (Charged(m, t, e.now), Allowed(WithinBudget(m, t, e.now, c.callCap)))
    case Sweep(readAt) => (Swept(m, readAt), Done)
  }

  /** The ledger's: the same answers asked of entries that are never deleted. */
  function LedgerStep(c: Config, m: Entries, e: Event): (Entries, Answer) {
    match e.op
    case Issue(t, role) => (m[t := Entry(role, e.now + c.ttl, 0)], Done)
    case Resolve(t) => (m, Role(ResolvedRole(m, t, e.now)))
    case Charge(t) => (if Live(m, t, e.now) then Counted(m, t) else m, Allowed(WithinBudget(m, t, e.now, c.callCap)))
    case Sweep(_) => (m, Done)
  }

  function StoreAfter(c: Config, es: seq<Event>): Entries {
    if es == [] then map[] else StoreStep(c, StoreAfter(c, es[..|es| - 1]), es[|es| - 1]).0
  }

  function LedgerAfter(c: Config, es: seq<Event>): Entries {
    if es == [] then map[] else LedgerStep(c, LedgerAfter(c, es[..|es| - 1]), es[|es| - 1]).0
  }

  /** The answer to the k-th event of a run. */
  function AnswerAt(c: Config, es: seq<Event>, k: nat): Answer
    requires k < |es|
  {
    StoreStep(c, StoreAfter(c, es[..k]), es[k]).1
  }

  /** The clock never runs back, tokens are minted fresh, and a sweep uses a clock value already read. */
  ghost predicate ValidRun(es: seq<Event>) {
    && (forall i, j :: 0 <= i < j < |es| ==> es[i].now <= es[j].now)
    && (forall i, j :: 0 <= i < j < |es| && es[i].op.Issue? && es[j].op.Issue? ==> es[i].op.token != es[j].op.token)
    && (forall i :: 0 <= i < |es| && es[i].op.Sweep? ==> es[i].op.readAt <= es[i].now)
  }

  /** Store and ledger at clock now: the store holds part of the ledger, and all of it that is live. */
  ghost predicate Follows(store: Entries, ledger: Entries, now: int) {
    && (forall t :: t in store ==> t in ledger && store[t] == ledger[t])
    && (forall t :: t in ledger && !Expired(ledger[t], now) ==> t in store)
  }

  lemma StepFollows(c: Config, store: Entries, ledger: Entries, e: Event, before: int)
    requires Follows(store, ledger, before) && before <= e.now
    requires e.op.Sweep? ==> e.op.readAt <= e.now
    requires e.op.Issue? ==> e.op.token !in ledger
    ensures Follows(StoreStep(c, store, e).0, LedgerStep(c, ledger, e).0, e.now)
    ensures StoreStep(c, store, e).1 == LedgerStep(c, ledger, e).1
  {
  }

  /** A token is in the ledger exactly when it has been issued. */
  lemma {:induction false} LedgerHoldsIssued(c: Config, es: seq<Event>, t: string)
    ensures t in LedgerAfter(c, es) <==> exists i :: 0 <= i < |es| && es[i].op.Issue? && es[i].op.token == t
  {
    if es != [] {
      var n := |es| - 1;
      LedgerHoldsIssued(c, es[..n], t);
      assert es == es[..n] + [es[n]];
      var issued := exists i :: 0 <= i < n && es[..n][i].op.Issue? && es[..n][i].op.token == t;
      assert (exists i :: 0 <= i < |es| && es[i].op.Issue? && es[i].op.token == t)
        <==> issued || (es[n].op.Issue? && es[n].op.token == t);
    }
  }

  lemma {:induction false} RunFollows(c: Config, es: seq<Event>, now: int)
    requires ValidRun(es) && (es != [] ==> es[|es| - 1].now <= now)
    ensures Follows(StoreAfter(c, es), LedgerAfter(c, es), now)
  {
    if es != [] {
      var n := |es| - 1;
      var e := es[n];
      RunFollows(c, es[..n], e.now);
      if e.op.Issue? { LedgerHoldsIssued(c, es[..n], e.op.token); }
      StepFollows(c, StoreAfter(c, es[..n]), LedgerAfter(c, es[..n]), e, e.now);
    }
  }

  /** Refinement: on every run the store answers every event as the ledger does. */
  lemma StoreRefinesLedger(c: Config, es: seq<Event>, k: nat)
    requires ValidRun(es) && k < |es|
    ensures AnswerAt(c, es, k) == LedgerStep(c, LedgerAfter(c, es[..k]), es[k]).1
  {
    RunFollows(c, es[..k], es[k].now);
    if es[k].op.Issue? { LedgerHoldsIssued(c, es[..k], es[k].op.token); }
    StepFollows(c, StoreAfter(c, es[..k]), LedgerAfter(c, es[..k]), es[k], es[k].now);
  }

  // ---------------------------------------------------------------- what the ledger says

  /** How often the token has been charged in events first up to, not including, last. */
  function ChargesBetween(es: seq<Event>, t: string, first: nat, last: nat): nat
    requires first <= last <= |es|
  {
    if first == last then 0
    else ChargesBetween(es, t, first, last - 1) + (if es[last - 1].op == Charge(t) then 1 else 0)
  }

  /** The ledger entry of a token that was issued at event i, while it is live. */
  lemma {:induction false} LedgerEntry(c: Config, es: seq<Event>, i: nat, k: nat)
    requires ValidRun(es) && i < k <= |es| && es[i].op.Issue?
    ensures var t := es[i].op.token;
            && t in LedgerAfter(c, es[..k])
            && LedgerAfter(c, es[..k])[t].role == es[i].op.role
            && LedgerAfter(c, es[..k])[t].expiresAt == es[i].now + c.ttl
            && (es[k - 1].now <= es[i].now + c.ttl ==>
                  LedgerAfter(c, es[..k])[t].calls == ChargesBetween(es, t, i + 1, k))
  {
    var n := k - 1;
    assert es[..k][..n] == es[..n] && es[..k][n] == es[n];
    if i < n { LedgerEntry(c, es, i, n); }
  }

  /** Resolve answers with the issued role exactly when the token was issued and now is not after
    its issue time plus the lifetime: deletion, lazy or swept, is never visible. */
  lemma ResolveMeaning(c: Config, es: seq<Event>, k: nat, role: string)
    requires ValidRun(es) && k < |es| && es[k].op.Resolve?
    ensures AnswerAt(c, es, k) == Role(Some(role)) <==>
      exists i :: 0 <= i < k && es[i].op == Issue(es[k].op.token, role) && es[k].now <= es[i].now + c.ttl
  {
    var t := es[k].op.token;
    StoreRefinesLedger(c, es, k);
    LedgerHoldsIssued(c, es[..k], t);
    if t in LedgerAfter(c, es[..k]) {
      var i :| 0 <= i < k && es[..k][i].op.Issue? && es[..k][i].op.token == t;
      LedgerEntry(c, es, i, k);
      assert es[i].op == Issue(t, es[i].op.role);
    } else {
      assert forall j :: 0 <= j < k ==> es[..k][j] == es[j];
    }
  }

  /** Charge says yes exactly when the token is issued and live and fewer than the cap charges were
    made for it since it was issued. */
  lemma ChargeMeaning(c: Config, es: seq<Event>, i: nat, k: nat)
    requires ValidRun(es) && i < k < |es| && es[i].op.Issue? && es[k].op == Charge(es[i].op.token)
    ensures AnswerAt(c, es, k) == Allowed(es[k].now <= es[i].now + c.ttl
                                          && ChargesBetween(es, es[i].op.token, i + 1, k) < c.callCap)
  {
    StoreRefinesLedger(c, es, k);
    LedgerEntry(c, es, i, k);
  }

  /** A token that was never issued before is refused. */
  lemma ChargeUnissued(c: Config, es: seq<Event>, k: nat)
    requires ValidRun(es) && k < |es| && es[k].op.Charge?
    requires forall i :: 0 <= i < k && es[i].op.Issue? ==> es[i].op.token != es[k].op.token
    ensures AnswerAt(c, es, k) == Allowed(false)
  {
    StoreRefinesLedger(c, es, k);
    LedgerHoldsIssued(c, es[..k], es[k].op.token);
    assert forall j :: 0 <= j < k ==> es[..k][j] == es[j];
  }
}
