/** The write side of the rate controller: a byte budget per window of one second, shared by
    all connections, with a small extra for a connection that finds it spent. */
module WriteBudget {
  import opened Common

  /** The controller's fields for writing; times are in nanoseconds. */
  datatype Window = Window(rate: int, minRate: int, lastWrite: int, wrote: int)

  /** What preWrite does at time `now`: the new window, the bytes granted, the time to wait. */
  function Asked(w: Window, n: int, now: int): (Window, int, int) {
    if n <= 0 || w.rate <= 0 then (w, n, 0) else
    var diff := SECOND - (now - w.lastWrite);
    if diff > 0 && w.wrote >= w.rate then (w, Min(w.minRate, n), diff) else
    var w' := if diff <= 0 then w.(lastWrite := now, wrote := 0) else w;
    if n > w.rate then (w'.(wrote := w'.wrote + w.rate), w.rate, SECOND)
    else (w'.(wrote := w'.wrote + n), n, 0)
  }

  predicate Spent(w: Window, now: int) {
    w.wrote >= w.rate && now - w.lastWrite < SECOND
  }

  /** A request in a new window, or in one with some budget left, gets all it asks for up to the rate, and
      must wait only if it asked for more. In a spent window it gets the minimum and waits for the next. */
  lemma {:induction false} GrantExactly(w: Window, n: int, now: int)
    requires n > 0 && w.rate > 0
    ensures var (w', m, wait) := Asked(w, n, now);
      if Spent(w, now) then m == Min(w.minRate, n) && now + wait == w.lastWrite + SECOND && w' == w
      else
        && m == Min(n, w.rate) && wait == (if n <= w.rate then 0 else SECOND)
        && (if now - w.lastWrite >= SECOND then w'.lastWrite == now && w'.wrote == m
            else w'.lastWrite == w.lastWrite && w'.wrote == w.wrote + m)
  {
  }

  // ---- Whole runs ----

  /** One grant: to which connection, how much, when, in which window, and whether the
      connection found the budget spent. */
  datatype Grant = Grant(conn: nat, bytes: int, at: int, window: nat, spent: bool)

  datatype Ask = Ask(conn: nat, n: int, now: int)

  /** `starts[k]` is when window k began; `after[c]` is when connection c may ask again. */
  datatype World = World(win: Window, clock: int, after: seq<int>, starts: seq<int>, grants: seq<Grant>)

  // No write has happened yet, which is long ago for any clock.
  function Start(rate: int, minRate: int, conns: nat): World {
    World(Window(rate, minRate, -SECOND, 0), 0, seq(conns, _ => 0), [], [])
  }

  /** Time goes on, and a connection sleeps until its own writeAfter before it asks. */
  predicate Admissible(w: World, a: Ask) {
    a.conn < |w.after| && a.n > 0 && a.now >= w.clock && a.now >= w.after[a.conn]
  }

  function Next(w: World, a: Ask): World
    requires Admissible(w, a)
  {
    var (win, m, wait) := Asked(w.win, a.n, a.now);
    var opens := a.now - w.win.lastWrite >= SECOND;
    var starts := if opens then w.starts + [a.now] else w.starts;
    World(win, a.now,
          if wait > 0 then w.after[a.conn := a.now + wait] else w.after,
          starts,
          w.grants + [Grant(a.conn, m, a.now, if |starts| == 0 then 0 else |starts| - 1, Spent(w.win, a.now))])
  }

  /** At the start every connection may ask, and after any request a connection may ask again as soon as its
      wait is over. */
  lemma {:induction false} MayAskAgain(rate: int, minRate: int, conns: nat, w: World, a: Ask, b: Ask)
    requires a.n > 0 && b.n > 0 && a.conn < conns && a.now >= 0
    requires Admissible(w, b) && a.conn == b.conn && a.now >= b.now + Asked(w.win, b.n, b.now).2 && a.now >= b.now
    ensures Admissible(Start(rate, minRate, conns), a)
    ensures Admissible(Next(w, b), a)
  {
  }

  ghost predicate IsRun(run: seq<World>, asks: seq<Ask>, rate: int, minRate: int, conns: nat) {
    && |run| == |asks| + 1 && run[0] == Start(rate, minRate, conns)
    && forall k :: 0 <= k < |asks| ==> Admissible(run[k], asks[k]) && run[k + 1] == Next(run[k], asks[k])
  }

  lemma {:induction false} RunExtends(run: seq<World>, asks: seq<Ask>, rate: int, minRate: int, conns: nat, a: Ask)
    requires IsRun(run, asks, rate, minRate, conns) && Admissible(run[|asks|], a)
    ensures IsRun(run + [Next(run[|asks|], a)], asks + [a], rate, minRate, conns)
  {
  }

  // ---- What has been granted ----

  /** All bytes granted in window w. */
  ghost function Bytes(grants: seq<Grant>, w: nat): int {
    if grants == [] then 0
    else
      var g := grants[|grants| - 1];
      Bytes(grants[..|grants| - 1], w) + if g.window == w then g.bytes else 0
  }

  /** All bytes granted to a connection. */
  ghost function GrantedTo(grants: seq<Grant>, conn: nat): int {
    if grants == [] then 0
    else
      var g := grants[|grants| - 1];
      GrantedTo(grants[..|grants| - 1], conn) + if g.conn == conn then g.bytes else 0
  }

  lemma {:induction false} AskGrants(w: World, a: Ask)
    requires Admissible(w, a)
    ensures GrantedTo(Next(w, a).grants, a.conn) == GrantedTo(w.grants, a.conn) + Asked(w.win, a.n, a.now).1
  {
    var w' := Next(w, a);
    assert w'.grants[..|w.grants|] == w.grants;
  }

  // Those of them that were charged to the budget.
  ghost function Charged(grants: seq<Grant>, w: nat): int {
    if grants == [] then 0
    else
      var g := grants[|grants| - 1];
      Charged(grants[..|grants| - 1], w) + if g.window == w && !g.spent then g.bytes else 0
  }

  /** The connections that found the budget of window w spent. */
  ghost function Finders(grants: seq<Grant>, w: nat): set<nat> {
    if grants == [] then {}
    else
      var g := grants[|grants| - 1];
      Finders(grants[..|grants| - 1], w) + if g.window == w && g.spent then {g.conn} else {}
  }

  lemma {:induction false} Snoc(grants: seq<Grant>, g: Grant, w: nat)
    ensures Bytes(grants + [g], w) == Bytes(grants, w) + if g.window == w then g.bytes else 0
    ensures Charged(grants + [g], w) == Charged(grants, w) + if g.window == w && !g.spent then g.bytes else 0
    ensures Finders(grants + [g], w) == Finders(grants, w) + if g.window == w && g.spent then {g.conn} else {}
  {
    assert (grants + [g])[..|grants|] == grants;
  }

  lemma {:induction false} NothingYet(grants: seq<Grant>, w: nat)
    requires forall i :: 0 <= i < |grants| ==> grants[i].window < w
    ensures Bytes(grants, w) == Charged(grants, w) == 0 && Finders(grants, w) == {}
  {
    if grants != [] {
      NothingYet(grants[..|grants| - 1], w);
    }
  }

  // ---- The invariant ----

  ghost predicate GrantOk(w: World, g: Grant) {
    && g.window < |w.starts| && w.starts[g.window] <= g.at < w.starts[g.window] + SECOND
    && g.bytes >= 0 && g.conn < |w.after|
  }

  ghost predicate Bounded(grants: seq<Grant>, k: nat, rate: int, minRate: int) {
    && Charged(grants, k) <= 2 * rate - 1
    && Bytes(grants, k) <= Charged(grants, k) + minRate * |Finders(grants, k)|
  }

  ghost predicate WindowOk(w: World, k: nat) { Bounded(w.grants, k, w.win.rate, w.win.minRate) }

  ghost predicate Inv(w: World) {
    && w.win.rate > 0 && w.win.minRate >= 0
    && (if w.starts == [] then w.grants == [] && w.win.lastWrite == -SECOND && w.win.wrote == 0 && w.clock >= 0
        else w.win.lastWrite == w.starts[|w.starts| - 1] <= w.clock && w.win.wrote == Charged(w.grants, |w.starts| - 1))
    && (forall i, j :: 0 <= i <= j < |w.starts| ==> w.starts[j] - w.starts[i] >= (j - i) * SECOND)
    && (forall i :: 0 <= i < |w.grants| ==> GrantOk(w, w.grants[i]))
    && (forall k: nat :: WindowOk(w, k))
    && FindersWait(w)
  }

  lemma {:induction false} StartInv(rate: int, minRate: int, conns: nat)
    requires rate > 0 && minRate >= 0
    ensures Inv(Start(rate, minRate, conns))
  {
    var w := Start(rate, minRate, conns);
    forall k: nat ensures WindowOk(w, k) {
      assert w.win.minRate * 0 == 0;
    }
  }

  lemma {:induction false} OneMore(m: int, n: nat)
    ensures m * (n + 1) == m * n + m
  {
  }

  // One more grant: within what is left, or the minimum to a connection that had not found it spent.
  lemma {:induction false} OneMoreGrant(grants: seq<Grant>, g: Grant, k: nat, rate: int, minRate: int)
    requires Bounded(grants, k, rate, minRate)
    requires g.window == k && g.spent ==> g.bytes <= minRate && g.conn !in Finders(grants, k)
    requires g.window == k && !g.spent ==> Charged(grants, k) + g.bytes <= 2 * rate - 1
    ensures Bounded(grants + [g], k, rate, minRate)
  {
    Snoc(grants, g, k);
    OneMore(minRate, |Finders(grants, k)|);
  }

  lemma {:induction false} NewGrant(w: World, a: Ask, g: Grant)
    requires w.win.rate > 0 && w.win.minRate >= 0 && Admissible(w, a) && g == Next(w, a).grants[|w.grants|]
    ensures var w' := Next(w, a);
      && w'.grants == w.grants + [g] && g.conn == a.conn
      && w'.win.rate == w.win.rate && w'.win.minRate == w.win.minRate
      && (g.spent ==> g.bytes <= w.win.minRate && a.now - w.win.lastWrite < SECOND)
      && (!g.spent ==> g.bytes <= w.win.rate && (a.now - w.win.lastWrite < SECOND ==> w.win.wrote < w.win.rate))
      && g.window == (if a.now - w.win.lastWrite >= SECOND then |w.starts| else if w.starts == [] then 0 else |w.starts| - 1)
  {
  }

  // A connection that found the budget spent cannot ask again before the window ends.
  lemma {:induction false} WindowStep(w: World, a: Ask, k: nat)
    requires Inv(w) && Admissible(w, a)
    ensures WindowOk(Next(w, a), k)
  {
    var g := Next(w, a).grants[|w.grants|];
    NewGrant(w, a, g);
    assert WindowOk(w, k);
    if g.window == k {
      if a.now - w.win.lastWrite >= SECOND {
        forall i | 0 <= i < |w.grants| ensures w.grants[i].window < k {
          assert GrantOk(w, w.grants[i]);
        }
        NothingYet(w.grants, k);
      } else if g.spent && g.conn in Finders(w.grants, k) {
        FinderWaits(w, g.conn);
      }
    }
    OneMoreGrant(w.grants, g, k, w.win.rate, w.win.minRate);
  }

  ghost predicate FindersWait(w: World) {
    w.starts != [] ==>
      forall c: nat :: c in Finders(w.grants, |w.starts| - 1) ==> c < |w.after| && w.after[c] >= w.win.lastWrite + SECOND
  }

  lemma {:induction false} FinderWaits(w: World, c: nat)
    requires FindersWait(w) && w.starts != [] && c in Finders(w.grants, |w.starts| - 1)
    ensures c < |w.after| && w.after[c] >= w.win.lastWrite + SECOND
  {
  }

  lemma {:induction false} OpenedWindow(w: World, a: Ask)
    requires Inv(w) && Admissible(w, a) && a.now - w.win.lastWrite >= SECOND
    ensures FindersWait(Next(w, a))
    ensures var w' := Next(w, a);
      w'.starts == w.starts + [a.now] && w'.win.wrote == Charged(w'.grants, |w.starts|)
  {
    var w' := Next(w, a);
    forall i | 0 <= i < |w.grants| ensures w.grants[i].window < |w.starts| {
      assert GrantOk(w, w.grants[i]);
    }
    NothingYet(w.grants, |w.starts|);
    Snoc(w.grants, w'.grants[|w.grants|], |w.starts|);
  }

  lemma {:induction false} SameWindow(w: World, a: Ask)
    requires Inv(w) && Admissible(w, a) && a.now - w.win.lastWrite < SECOND
    ensures FindersWait(Next(w, a))
    ensures var w' := Next(w, a);
      w.starts != [] && w'.starts == w.starts && w'.win.wrote == Charged(w'.grants, |w.starts| - 1)
  {
    var w', last := Next(w, a), |w.starts| - 1;
    var g := w'.grants[|w.grants|];
    Snoc(w.grants, g, last);
    assert w'.grants == w.grants + [g];
    assert w.starts != [] && FindersWait(w);
    forall c: nat | c in Finders(w'.grants, last) ensures c < |w'.after| && w'.after[c] >= w'.win.lastWrite + SECOND {
      if c in Finders(w.grants, last) {
        FinderWaits(w, c);
        assert c != a.conn && w'.after[c] == w.after[c];
      } else {
        assert c == g.conn && g.spent;
      }
    }
  }

  lemma {:induction false} GrantsStayOk(w: World, a: Ask, i: nat)
    requires Inv(w) && Admissible(w, a) && i < |Next(w, a).grants|
    ensures GrantOk(Next(w, a), Next(w, a).grants[i])
  {
    if i < |w.grants| {
      assert GrantOk(w, w.grants[i]);
    }
  }

  lemma {:induction false} StepKeepsInv(w: World, a: Ask)
    requires Inv(w) && Admissible(w, a)
    ensures Inv(Next(w, a))
  {
    var w' := Next(w, a);
    if a.now - w.win.lastWrite >= SECOND {
      OpenedWindow(w, a);
    } else {
      SameWindow(w, a);
    }
    forall k: nat ensures WindowOk(w', k) {
      WindowStep(w, a, k);
    }
    forall i: nat | i < |w'.grants| ensures GrantOk(w', w'.grants[i]) {
      GrantsStayOk(w, a, i);
    }
  }

  lemma {:induction false} StepKeepsRates(w: World, a: Ask)
    requires w.win.rate > 0 && Admissible(w, a)
    ensures var w' := Next(w, a);
      w'.win.rate == w.win.rate && w'.win.minRate == w.win.minRate && |w'.after| == |w.after|
  {
  }

  lemma {:induction false} InvHolds(run: seq<World>, asks: seq<Ask>, rate: int, minRate: int, conns: nat, k: nat)
    requires IsRun(run, asks, rate, minRate, conns) && rate > 0 && minRate >= 0 && k < |run|
    ensures Inv(run[k])
    ensures run[k].win.rate == rate && run[k].win.minRate == minRate && |run[k].after| == conns
  {
    if k == 0 {
      StartInv(rate, minRate, conns);
    } else {
      InvHolds(run, asks, rate, minRate, conns, k - 1);
      var w, a := run[k - 1], asks[k - 1];
      StepKeepsInv(w, a);
      StepKeepsRates(w, a);
      assert run[k] == Next(w, a);
    }
  }

  // ---- Main results ----

  /** In one window: less than twice the rate, plus the minimum once for each connection
      that found the budget spent. */
  lemma {:induction false} WindowBudget(run: seq<World>, asks: seq<Ask>, rate: int, minRate: int, conns: nat, k: nat, window: nat)
    requires IsRun(run, asks, rate, minRate, conns) && rate > 0 && minRate >= 0 && k < |run|
    ensures Bytes(run[k].grants, window) <= 2 * rate - 1 + minRate * |Finders(run[k].grants, window)|
    ensures |Finders(run[k].grants, window)| <= conns
  {
    InvHolds(run, asks, rate, minRate, conns, k);
    assert WindowOk(run[k], window);
    FindersAreConnections(run[k].grants, window, conns) by {
      forall i | 0 <= i < |run[k].grants| ensures run[k].grants[i].conn < conns {
        assert GrantOk(run[k], run[k].grants[i]);
      }
    }
  }

  lemma {:induction false} FindersAreConnections(grants: seq<Grant>, window: nat, conns: nat)
    requires forall i :: 0 <= i < |grants| ==> grants[i].conn < conns
    ensures Finders(grants, window) <= Below(conns)
    ensures |Finders(grants, window)| <= conns
  {
    if grants != [] {
      FindersAreConnections(grants[..|grants| - 1], window, conns);
    }
    assert Below(conns) == Finders(grants, window) + (Below(conns) - Finders(grants, window));
  }

  /** Bytes granted in the time interval from a up to, not including, b. */
  ghost function BytesBetween(grants: seq<Grant>, a: int, b: int): int {
    if grants == [] then 0
    else
      var g := grants[|grants| - 1];
      BytesBetween(grants[..|grants| - 1], a, b) + if a <= g.at < b then g.bytes else 0
  }

  // Bytes granted in the n windows from `first` on.
  ghost function BytesOfWindows(grants: seq<Grant>, first: nat, n: nat): int {
    if n == 0 then 0 else BytesOfWindows(grants, first, n - 1) + Bytes(grants, first + n - 1)
  }

  lemma {:induction false} WindowsSnoc(grants: seq<Grant>, g: Grant, first: nat, n: nat)
    ensures BytesOfWindows(grants + [g], first, n)
         == BytesOfWindows(grants, first, n) + if first <= g.window < first + n then g.bytes else 0
  {
    if n > 0 {
      WindowsSnoc(grants, g, first, n - 1);
      Snoc(grants, g, first + n - 1);
    }
  }

  lemma {:induction false} NoWindows(first: nat, n: nat)
    ensures BytesOfWindows([], first, n) == 0
  {
    if n > 0 {
      NoWindows(first, n - 1);
    }
  }

  lemma {:induction false} IntervalInWindows(grants: seq<Grant>, a: int, b: int, first: nat, n: nat)
    requires forall i :: 0 <= i < |grants| ==> grants[i].bytes >= 0
    requires forall i :: 0 <= i < |grants| && a <= grants[i].at < b ==> first <= grants[i].window < first + n
    ensures BytesBetween(grants, a, b) <= BytesOfWindows(grants, first, n)
  {
    if grants == [] {
      NoWindows(first, n);
    } else {
      var front, g := grants[..|grants| - 1], grants[|grants| - 1];
      IntervalInWindows(front, a, b, first, n);
      assert grants == front + [g];
      WindowsSnoc(front, g, first, n);
    }
  }

  /** How often a budget was found spent in the n windows from `first` on, each connection counted once a
      window. */
  ghost function FindersOfWindows(grants: seq<Grant>, first: nat, n: nat): nat {
    if n == 0 then 0 else FindersOfWindows(grants, first, n - 1) + |Finders(grants, first + n - 1)|
  }

  /** What one window may grant. */
  ghost function WindowLimit(grants: seq<Grant>, window: nat, rate: int, minRate: int): int {
    2 * rate - 1 + minRate * |Finders(grants, window)|
  }

  ghost function WindowLimits(grants: seq<Grant>, first: nat, n: nat, rate: int, minRate: int): int {
    if n == 0 then 0
    else WindowLimits(grants, first, n - 1, rate, minRate) + WindowLimit(grants, first + n - 1, rate, minRate)
  }

  lemma {:induction false} WindowsBound(grants: seq<Grant>, first: nat, n: nat, rate: int, minRate: int)
    requires forall k: nat :: Bytes(grants, k) <= WindowLimit(grants, k, rate, minRate)
    ensures BytesOfWindows(grants, first, n) <= WindowLimits(grants, first, n, rate, minRate)
  {
    if n > 0 {
      WindowsBound(grants, first, n - 1, rate, minRate);
    }
  }

  lemma {:induction false} LimitsByFinders(grants: seq<Grant>, first: nat, n: nat, rate: int, minRate: int)
    ensures WindowLimits(grants, first, n, rate, minRate)
      == n * (2 * rate - 1) + minRate * FindersOfWindows(grants, first, n)
  {
    if n > 0 {
      LimitsByFinders(grants, first, n - 1, rate, minRate);
      OneMoreLimit(n, 2 * rate - 1, minRate, FindersOfWindows(grants, first, n - 1), |Finders(grants, first + n - 1)|);
    }
  }

  lemma {:induction false} OneMoreLimit(n: int, fixed: int, m: int, x: int, y: int)
    ensures (n - 1) * fixed + m * x + (fixed + m * y) == n * fixed + m * (x + y)
  {
    OnceMore(n, fixed);
    MulAdd(m, x, y);
  }

  lemma {:induction false} FindersBound(grants: seq<Grant>, first: nat, n: nat, conns: nat)
    requires forall k: nat :: |Finders(grants, k)| <= conns
    ensures FindersOfWindows(grants, first, n) <= n * conns
  {
    if n > 0 {
      FindersBound(grants, first, n - 1, conns);
      OnceMore(n, conns);
    }
  }

  lemma {:induction false} OnceMore(n: int, x: int)
    ensures n * x == (n - 1) * x + x
  {
  }

  lemma {:induction false} MulAdd(m: int, x: int, y: int)
    ensures m * (x + y) == m * x + m * y
  {
  }

  // The first window that reaches into the interval from a on.
  ghost function FirstWindow(w: World, a: int): nat { FirstAfter(w.starts, a - SECOND, 0) }

  /** Any T seconds meet at most T + 1 windows, so the rate averages out over time; the minimum is added once
      for each connection in each of these windows in which it finds the budget spent. */
  lemma {:induction false} IntervalBudget(
      run: seq<World>, asks: seq<Ask>, rate: int, minRate: int, conns: nat, k: nat, a: int, seconds: nat)
    requires IsRun(run, asks, rate, minRate, conns) && rate > 0 && minRate >= 0 && k < |run|
    ensures var found := FindersOfWindows(run[k].grants, FirstWindow(run[k], a), seconds + 1);
      && BytesBetween(run[k].grants, a, a + seconds * SECOND) <= (seconds + 1) * (2 * rate - 1) + minRate * found
      && found <= (seconds + 1) * conns
  {
    InvHolds(run, asks, rate, minRate, conns, k);
    WindowBudgets(run, asks, rate, minRate, conns, k);
    IntervalOfWindows(run[k], rate, minRate, a, seconds);
    LimitsByFinders(run[k].grants, FirstWindow(run[k], a), seconds + 1, rate, minRate);
    FindersBound(run[k].grants, FirstWindow(run[k], a), seconds + 1, conns);
  }

  lemma {:induction false} IntervalOfWindows(w: World, rate: int, minRate: int, a: int, seconds: nat)
    requires Inv(w) && forall k: nat :: Bytes(w.grants, k) <= WindowLimit(w.grants, k, rate, minRate)
    ensures BytesBetween(w.grants, a, a + seconds * SECOND)
      <= WindowLimits(w.grants, FirstWindow(w, a), seconds + 1, rate, minRate)
  {
    var first := FirstWindow(w, a);
    GrantsInWindows(w, a, seconds, first);
    IntervalInWindows(w.grants, a, a + seconds * SECOND, first, seconds + 1);
    WindowsBound(w.grants, first, seconds + 1, rate, minRate);
  }

  lemma {:induction false} WindowBudgets(run: seq<World>, asks: seq<Ask>, rate: int, minRate: int, conns: nat, k: nat)
    requires IsRun(run, asks, rate, minRate, conns) && rate > 0 && minRate >= 0 && k < |run|
    ensures forall w: nat :: Bytes(run[k].grants, w) <= WindowLimit(run[k].grants, w, rate, minRate)
    ensures forall w: nat :: |Finders(run[k].grants, w)| <= conns
  {
    forall w: nat
      ensures Bytes(run[k].grants, w) <= WindowLimit(run[k].grants, w, rate, minRate)
      ensures |Finders(run[k].grants, w)| <= conns
    {
      WindowBudget(run, asks, rate, minRate, conns, k, w);
    }
  }

  lemma {:induction false} GrantsInWindows(w: World, a: int, seconds: nat, first: nat)
    requires Inv(w) && first <= |w.starts|
    requires forall i :: 0 <= i < first ==> w.starts[i] <= a - SECOND
    requires first < |w.starts| ==> w.starts[first] > a - SECOND
    ensures forall i :: 0 <= i < |w.grants| ==> w.grants[i].bytes >= 0
    ensures forall i :: 0 <= i < |w.grants| && a <= w.grants[i].at < a + seconds * SECOND ==>
      first <= w.grants[i].window < first + (seconds + 1)
  {
    forall i | 0 <= i < |w.grants| ensures w.grants[i].bytes >= 0 {
      assert GrantOk(w, w.grants[i]);
    }
    forall i | 0 <= i < |w.grants| && a <= w.grants[i].at < a + seconds * SECOND
      ensures first <= w.grants[i].window < first + (seconds + 1)
    {
      var g := w.grants[i];
      assert GrantOk(w, g);
      assert first <= g.window;
      assert w.starts[g.window] - w.starts[first] >= (g.window - first) * SECOND;
    }
  }

  // The first window, from k on, that begins later than t.
  function FirstAfter(starts: seq<int>, t: int, k: nat): (r: nat)
    requires k <= |starts|
    requires forall i :: 0 <= i < k ==> starts[i] <= t
    ensures r <= |starts| && forall i :: 0 <= i < r ==> starts[i] <= t
    ensures r < |starts| ==> starts[r] > t
    decreases |starts| - k
  {
    if k == |starts| || starts[k] > t then k else FirstAfter(starts, t, k + 1)
  }

  // ---- what a window grants at least ----

  /** The bytes asked for in window w. */
  ghost function Demand(asks: seq<Ask>, grants: seq<Grant>, w: nat): int
    requires |asks| == |grants|
  {
    if grants == [] then 0
    else
      var n := |grants| - 1;
      Demand(asks[..n], grants[..n], w) + if grants[n].window == w then asks[n].n else 0
  }

  lemma {:induction false} DemandSnoc(asks: seq<Ask>, grants: seq<Grant>, a: Ask, g: Grant, w: nat)
    requires |asks| == |grants|
    ensures Demand(asks + [a], grants + [g], w) == Demand(asks, grants, w) + if g.window == w then a.n else 0
  {
    assert (asks + [a])[..|asks|] == asks && (grants + [g])[..|grants|] == grants;
  }

  lemma {:induction false} NoDemandYet(asks: seq<Ask>, grants: seq<Grant>, w: nat)
    requires |asks| == |grants| && forall i :: 0 <= i < |grants| ==> grants[i].window != w
    ensures Demand(asks, grants, w) == 0
  {
    if grants != [] {
      NoDemandYet(asks[..|asks| - 1], grants[..|grants| - 1], w);
    }
  }

  lemma {:induction false} ChargedIsGranted(w: World, grants: seq<Grant>, k: nat)
    requires forall i :: 0 <= i < |grants| ==> GrantOk(w, grants[i])
    ensures 0 <= Charged(grants, k) <= Bytes(grants, k)
  {
    if grants != [] {
      ChargedIsGranted(w, grants[..|grants| - 1], k);
      assert GrantOk(w, grants[|grants| - 1]);
    }
  }

  /** The first bytes asked for in a window are granted, up to the rate. */
  ghost predicate Serves(w: World, asks: seq<Ask>, k: nat) {
    && |asks| == |w.grants|
    && 0 <= Demand(asks, w.grants, k) && Charged(w.grants, k) >= Min(w.win.rate, Demand(asks, w.grants, k))
  }

  lemma {:induction false} StepServes(w: World, asks: seq<Ask>, a: Ask, k: nat)
    requires Inv(w) && Admissible(w, a) && Serves(w, asks, k)
    ensures Serves(Next(w, a), asks + [a], k)
  {
    var w' := Next(w, a);
    var g := w'.grants[|w.grants|];
    NewGrant(w, a, g);
    GrantExactly(w.win, a.n, a.now);
    Snoc(w.grants, g, k);
    DemandSnoc(asks, w.grants, a, g, k);
    if g.window == k && a.now - w.win.lastWrite >= SECOND {
      forall i | 0 <= i < |w.grants|
        ensures w.grants[i].window < k
      {
        assert GrantOk(w, w.grants[i]);
      }
      NoDemandYet(asks, w.grants, k);
      NothingYet(w.grants, k);
    }
  }

  lemma {:induction false} ServesHolds(
      run: seq<World>, asks: seq<Ask>, rate: int, minRate: int, conns: nat, k: nat, window: nat)
    requires IsRun(run, asks, rate, minRate, conns) && rate > 0 && minRate >= 0 && k < |run|
    ensures Serves(run[k], asks[..k], window)
  {
    if k > 0 {
      ServesHolds(run, asks, rate, minRate, conns, k - 1, window);
      InvHolds(run, asks, rate, minRate, conns, k - 1);
      StepServes(run[k - 1], asks[..k - 1], asks[k - 1], window);
      assert asks[..k] == asks[..k - 1] + [asks[k - 1]];
    }
  }

  /** Over every run a window grants at least what is asked for in it, up to the rate. */
  lemma {:induction false} WindowServes(
      run: seq<World>, asks: seq<Ask>, rate: int, minRate: int, conns: nat, k: nat, window: nat)
    requires IsRun(run, asks, rate, minRate, conns) && rate > 0 && minRate >= 0 && k < |run|
    ensures |run[k].grants| == k
    ensures Bytes(run[k].grants, window) >= Min(rate, Demand(asks[..k], run[k].grants, window))
  {
    ServesHolds(run, asks, rate, minRate, conns, k, window);
    InvHolds(run, asks, rate, minRate, conns, k);
    ChargedIsGranted(run[k], run[k].grants, window);
  }
}
