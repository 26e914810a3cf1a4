/** Byte budgets and admission of the proxy: each connection charges its own budget and one
    that all connections share, in any interleaving. */
module ProxyBudget {

  // ----- the two budgets

  class GlobalByteBudget {
    const limit: int
    var used: int

    constructor (n: int)
      ensures limit == n && used == 0
    {
      limit, used := n, 0;
    }

    /** A refused size changes nothing. */
    method Add(size: int) returns (ok: bool)
      modifies this
      ensures ok <==> size >= 0 && old(used) + size <= limit
      ensures used == if ok then old(used) + size else old(used)
    {
      ok := !(size < 0 || used + size > limit);
      if ok {
        used := used + size;
      }
    }

    method Release(size: int)
      modifies this
      ensures used == if old(used) >= size then old(used) - size else 0
    {
      used := if used - size >= 0 then used - size else 0;
    }
  }

  class ByteBudget {
    const limit: int
    const total: GlobalByteBudget
    var used: int

    constructor (n: int, global: GlobalByteBudget)
      ensures limit == n && total == global && used == 0
    {
      limit, total, used := n, global, 0;
    }

    /** Both budgets are charged, or neither. */
    method Add(size: int) returns (ok: bool)
      modifies this, total
      ensures ok <==> size >= 0 && old(used) + size <= limit && old(total.used) + size <= total.limit
      ensures used == (if ok then old(used) + size else old(used))
      ensures total.used == (if ok then old(total.used) + size else old(total.used))
    {
      if size < 0 || used + size > limit {
        return false;
      }
      ok := total.Add(size);
      if ok {
        used := used + size;
      }
    }

    method Release()
      modifies this, total
      ensures used == 0
      ensures total.used == if old(total.used) >= old(used) then old(total.used) - old(used) else 0
    {
      total.Release(used);
      used := 0;
    }
  }

  // ----- every interleaving

  datatype Limits = Limits(total: int, connection: int, connections: int)

  /** `live` maps the connections that were admitted and have not left to what they hold. */
  datatype Proxy = Proxy(globalUsed: int, live: map<nat, int>, released: set<nat>, active: int)

  datatype Action =
    | Open(c: nat)              // a new connection asks for admission
    | Add(c: nat, size: int)    // an admitted connection charges bytes
    | Release(c: nat)           // its budget is released
    | Leave(c: nat)             // and then it gives up its place

  function Idle(): Proxy {
    Proxy(0, map[], {}, 0)
  }

  predicate Accepts(p: Proxy, l: Limits, c: nat, size: int) {
    c in p.live && size >= 0 && p.live[c] + size <= l.connection && p.globalUsed + size <= l.total
  }

  function Next(p: Proxy, l: Limits, a: Action): Proxy {
    match a
    case Open(c) =>
      if c in p.live || c in p.released || p.active >= l.connections then p
      else p.(live := p.live[c := 0], active := p.active + 1)
    case Add(c, size) =>
      if Accepts(p, l, c, size) then
        p.(globalUsed := p.globalUsed + size, live := p.live[c := p.live[c] + size])
      else p
    case Release(c) =>
      if c in p.live then
        p.(globalUsed := if p.globalUsed >= p.live[c] then p.globalUsed - p.live[c] else 0,
           live := p.live - {c}, released := p.released + {c})
      else p
    case Leave(c) =>
      if c in p.released then p.(released := p.released - {c}, active := p.active - 1) else p
  }

  function Run(l: Limits, actions: seq<Action>): Proxy {
    if actions == [] then Idle() else Next(Run(l, actions[..|actions| - 1]), l, actions[|actions| - 1])
  }

  /** What the live connections hold together. */
  ghost function Held(live: map<nat, int>): int {
    if live == map[] then 0
    else
      var c :| c in live;
      live[c] + Held(live - {c})
  }

  lemma {:induction false} HeldRemove(live: map<nat, int>, c: nat)
    requires c in live
    ensures Held(live) == live[c] + Held(live - {c})
    decreases |live|
  {
    var d :| d in live && Held(live) == live[d] + Held(live - {d});
    if d != c {
      HeldRemove(live - {d}, c);
      HeldRemove(live - {c}, d);
      assert live - {d} - {c} == live - {c} - {d};
    }
  }

  lemma HeldUpdate(live: map<nat, int>, c: nat, n: int)
    ensures Held(live[c := n]) == Held(live) - (if c in live then live[c] else 0) + n
  {
    HeldRemove(live[c := n], c);
    assert live[c := n] - {c} == live - {c};
    if c in live {
      HeldRemove(live, c);
    } else {
      assert live - {c} == live;
    }
  }

  lemma {:induction false} HeldNatural(live: map<nat, int>)
    requires forall c :: c in live ==> live[c] >= 0
    ensures Held(live) >= 0
    decreases |live|
  {
    if live != map[] {
      var c :| c in live;
      HeldRemove(live, c);
      HeldNatural(live - {c});
    }
  }

  predicate Conserved(p: Proxy) {
    && (forall c :: c in p.live ==> p.live[c] >= 0 && c !in p.released)
    && p.active == |p.live| + |p.released|
  }

  ghost predicate Inv(p: Proxy, l: Limits) {
    && Conserved(p) && p.globalUsed == Held(p.live)
    && 0 <= p.globalUsed <= l.total && p.active <= l.connections
    && (forall c :: c in p.live ==> p.live[c] <= l.connection)
  }

  lemma OpenInv(p: Proxy, l: Limits, c: nat)
    requires Inv(p, l) && l.connection >= 1
    ensures Inv(Next(p, l, Open(c)), l)
  {
    hide Held;
    if c !in p.live {
      HeldUpdate(p.live, c, 0);
      assert p.live[c := 0].Keys == p.live.Keys + {c};
      assert |p.live[c := 0]| == |p.live[c := 0].Keys| && |p.live| == |p.live.Keys|;
    }
  }

  lemma AddInv(p: Proxy, l: Limits, c: nat, size: int)
    requires Inv(p, l)
    ensures Inv(Next(p, l, Add(c, size)), l)
  {
    hide Held;
    if Accepts(p, l, c, size) {
      var live := p.live[c := p.live[c] + size];
      HeldUpdate(p.live, c, p.live[c] + size);
      assert live.Keys == p.live.Keys;
      assert |live| == |live.Keys| && |p.live| == |p.live.Keys|;
    }
  }

  lemma ReleaseInv(p: Proxy, l: Limits, c: nat)
    requires Inv(p, l)
    ensures Inv(Next(p, l, Release(c)), l)
  {
    hide Held;
    if c in p.live {
      var live := p.live - {c};
      HeldRemove(p.live, c);
      HeldNatural(live);
      assert live.Keys == p.live.Keys - {c};
      assert |live| == |live.Keys| && |p.live| == |p.live.Keys|;
    }
  }

  lemma NextInv(p: Proxy, l: Limits, a: Action)
    requires Inv(p, l) && l.connection >= 1
    ensures Inv(Next(p, l, a), l)
  {
    match a
    case Open(c) => OpenInv(p, l, c);
    case Add(c, size) => AddInv(p, l, c, size);
    case Release(c) => ReleaseInv(p, l, c);
    case Leave(c) =>
      hide Held;
  }

  /** MAIN: over every interleaving of opening, charging, releasing and leaving, the shared
      counter is what the live connections hold, both limits hold, the number of admitted
      connections is bounded, the clamp of `release` is never needed, and when all have left
      both counters are back to zero. */
  lemma {:induction false} BudgetsConserved(l: Limits, actions: seq<Action>)
    requires l.total >= 1 && l.connection >= 1 && l.connections >= 1
    ensures var p := Run(l, actions);
            && Inv(p, l)
            && (forall c :: c in p.live ==> p.live[c] <= p.globalUsed)
            && (p.live == map[] ==> p.globalUsed == 0)
            && (p.live == map[] && p.released == {} ==> p.active == 0)
  {
    if actions != [] {
      var last := |actions| - 1;
      BudgetsConserved(l, actions[..last]);
      NextInv(Run(l, actions[..last]), l, actions[last]);
    }
    var p := Run(l, actions);
    forall c | c in p.live ensures p.live[c] <= p.globalUsed {
      HeldRemove(p.live, c);
      HeldNatural(p.live - {c});
    }
  }

  /** A refused charge changes neither counter, and says why it is refused. */
  lemma RefusedChargeIsFree(p: Proxy, l: Limits, c: nat, size: int)
    requires Inv(p, l) && c in p.live && size >= 0
    ensures Next(p, l, Add(c, size)) == p <==>
            size == 0 || p.live[c] + size > l.connection || Held(p.live) + size > l.total
  {
    if Accepts(p, l, c, size) && size > 0 {
      assert Next(p, l, Add(c, size)).globalUsed != p.globalUsed;
    }
    if size == 0 {
      assert p.live[c := p.live[c]] == p.live;
    }
  }

  // ----- the running proxy takes exactly these steps

  class AsyncForwardProxy {
    const limits: Limits
    const total: GlobalByteBudget
    var budgets: map<nat, ByteBudget>
    var released: set<nat>
    var active: int

    /** Every admitted connection has a budget of its own, all tied to the shared one. */
    ghost predicate Valid()
      reads this, budgets.Values
    {
      && total.limit == limits.total
      && (forall c :: c in budgets ==> budgets[c].total == total && budgets[c].limit == limits.connection)
      && (forall c, d :: c in budgets && d in budgets && c != d ==> budgets[c] != budgets[d])
    }

    ghost function View(): Proxy
      reads this, total, budgets.Values
    {
      Proxy(total.used, map c | c in budgets :: budgets[c].used, released, active)
    }

    constructor (l: Limits)
      ensures Valid() && fresh(total) && limits == l && View() == Idle()
    {
      limits, budgets, released, active := l, map[], {}, 0;
      total := new GlobalByteBudget(l.total);
      new;
      assert View().live == map[];
    }

    method Admit(c: nat) returns (admitted: bool)
      requires Valid() && c !in budgets && c !in released
      modifies this
      ensures Valid() && admitted == (old(active) < limits.connections)
      ensures View() == Next(old(View()), limits, Open(c))
    {
      if active >= limits.connections {
        return false;
      }
      active := active + 1;
      var budget := new ByteBudget(limits.connection, total);
      budgets := budgets[c := budget];
      assert View().live == old(View()).live[c := 0];
      return true;
    }

    method Charge(c: nat, size: int) returns (ok: bool)
      requires Valid() && c in budgets
      modifies total, budgets[c]
      ensures Valid() && ok == Accepts(old(View()), limits, c, size)
      ensures View() == Next(old(View()), limits, Add(c, size))
    {
      ok := budgets[c].Add(size);
      if ok {
        assert View().live == old(View()).live[c := old(budgets[c].used) + size];
      } else {
        assert View().live == old(View()).live;
      }
    }

    /** The `finally` block, first half: the connection gives back what it charged. */
    method ReleaseBudget(c: nat)
      requires Valid() && c in budgets
      modifies this, total, budgets[c]
      ensures Valid()
      ensures View() == Next(old(View()), limits, Release(c))
    {
      budgets[c].Release();
      budgets, released := budgets - {c}, released + {c};
      assert View().live == old(View()).live - {c};
    }

    method GiveUpPlace(c: nat)
      requires Valid() && c in released
      modifies this
      ensures Valid()
      ensures View() == Next(old(View()), limits, Leave(c))
    {
      released, active := released - {c}, active - 1;
      assert View().live == old(View()).live;
    }
  }
}
