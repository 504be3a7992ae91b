/** Host port allocation in `setup_port_forwarding_async`.  Other processes and the
    kernel are inputs: while one row is handled, `busy` ports refuse a bind and
    `ephemeral` is what a bind to port 0 would yield.  A port this daemon already
    listens on refuses a second bind.  The table has a unique index on local ports. */
module PortForwarding {
  import opened Wrappers

  type Port = p: int | 0 <= p < 0x1_0000

  const NEAR_ATTEMPTS := 10

  datatype Env = Env(busy: set<Port>, ephemeral: Option<Port>)

  datatype Row = Row(service: string, containerPort: Port, localPort: Port)

  predicate Bindable(p: Port, env: Env, live: set<Port>) {
    p != 0 && p !in env.busy && p !in live
  }

  function OsAssigned(env: Env, live: set<Port>): (r: Option<Port>)
    ensures r.Some? ==> Bindable(r.value, env, live)
  {
    if env.ephemeral.Some? && Bindable(env.ephemeral.value, env, live) then env.ephemeral else None
  }

  /** One of the ports `bind_near` tries. */
  predicate Candidate(p: Port, preferred: Port, reserved: set<Port>, env: Env, live: set<Port>) {
    preferred <= p < preferred + NEAR_ATTEMPTS && p !in reserved && Bindable(p, env, live)
  }

  /** `bind_near`: the first candidate, else what the kernel assigns. */
  function Near(preferred: Port, offset: nat, reserved: set<Port>, env: Env, live: set<Port>): Option<Port>
    requires offset <= NEAR_ATTEMPTS
    decreases NEAR_ATTEMPTS - offset
  {
    if offset == NEAR_ATTEMPTS then OsAssigned(env, live)
    else if preferred + offset < 0x1_0000 && Candidate(preferred + offset, preferred, reserved, env, live) then
      Some(preferred + offset)
    else Near(preferred, offset + 1, reserved, env, live)
  }

  /** What `bind_near` promises: the least candidate at or above `least`; the kernel's
      choice, which alone may be reserved or out of range, only when there is none. */
  ghost predicate NearChoice(preferred: Port, least: int, reserved: set<Port>, env: Env, live: set<Port>, r: Option<Port>) {
    if exists p: Port :: least <= p && Candidate(p, preferred, reserved, env, live) then
      && r.Some? && least <= r.value && Candidate(r.value, preferred, reserved, env, live)
      && forall p: Port :: least <= p < r.value ==> !Candidate(p, preferred, reserved, env, live)
    else r == OsAssigned(env, live)
  }

  lemma {:induction false} NearMeaning(preferred: Port, offset: nat, reserved: set<Port>, env: Env, live: set<Port>)
    requires offset <= NEAR_ATTEMPTS
    ensures NearChoice(preferred, preferred + offset, reserved, env, live, Near(preferred, offset, reserved, env, live))
    decreases NEAR_ATTEMPTS - offset
  {
    if offset < NEAR_ATTEMPTS {
      NearMeaning(preferred, offset + 1, reserved, env, live);
    }
  }

  method BindNear(preferred: Port, reserved: set<Port>, env: Env, live: set<Port>) returns (r: Option<Port>)
    ensures r == Near(preferred, 0, reserved, env, live)
    ensures NearChoice(preferred, preferred, reserved, env, live, r)
  {
    NearMeaning(preferred, 0, reserved, env, live);
    hide NearChoice;
    var offset := 0;
    while offset < NEAR_ATTEMPTS
      invariant 0 <= offset <= NEAR_ATTEMPTS
      invariant Near(preferred, 0, reserved, env, live) == Near(preferred, offset, reserved, env, live)
    {
      var port := preferred + offset;
      // checked_add overflow and port 0 are skipped, and reserved ports are not tried
      if port < 0x1_0000 && port != 0 && port !in reserved {
        if Bindable(port, env, live) {
          return Some(port);
        }
      }
      offset := offset + 1;
    }
    r := OsAssigned(env, live);
  }

  /** A bind to `p` succeeds. */
  ghost predicate Free(p: Port, env: Env, live: set<Port>) {
    p != 0 && p !in env.busy && p !in live
  }

  /** Said without the specification: of the ten ports from the preferred one on, the
      least that is free and not reserved; if there is none, the port the kernel offers,
      taken whenever it is free. */
  lemma NearLiteral(preferred: Port, reserved: set<Port>, env: Env, live: set<Port>)
    ensures var r := Near(preferred, 0, reserved, env, live);
            if exists p: Port :: preferred <= p < preferred + 10 && p !in reserved && Free(p, env, live) then
              && r.Some? && preferred <= r.value < preferred + 10 && r.value !in reserved && Free(r.value, env, live)
              && forall p: Port :: preferred <= p < r.value ==> p in reserved || !Free(p, env, live)
            else
              forall p :: r == Some(p) <==> env.ephemeral == Some(p) && Free(p, env, live)
  {
    hide Near;
    NearMeaning(preferred, 0, reserved, env, live);
    assert forall p: Port :: Candidate(p, preferred, reserved, env, live) <==>
      preferred <= p < preferred + 10 && p !in reserved && Free(p, env, live);
  }

  /** `rebind_or_near` as a function; `RebindOrNear` says what it means. */
  function Rebind(saved: Port, near: Port, reserved: set<Port>, env: Env, live: set<Port>): Option<Port> {
    if saved !in reserved && Bindable(saved, env, live) then Some(saved)
    else Near(near, 0, reserved, env, live)
  }

  /** An unreserved saved port that can be bound is kept.  Any other result is the near
      choice, so a reserved port is only ever the kernel's, with no candidate left. */
  method RebindOrNear(saved: Port, near: Port, reserved: set<Port>, env: Env, live: set<Port>) returns (r: Option<Port>)
    ensures saved !in reserved && Bindable(saved, env, live) ==> r == Some(saved)
    ensures saved in reserved || !Bindable(saved, env, live) ==> NearChoice(near, near, reserved, env, live, r)
    ensures r.Some? ==> Bindable(r.value, env, live)
    ensures r.Some? && r.value in reserved ==>
              r == OsAssigned(env, live) && forall p: Port :: near <= p ==> !Candidate(p, near, reserved, env, live)
    ensures r == Rebind(saved, near, reserved, env, live)
  {
    BoundIsBindable(saved, near, reserved, env, live);
    if saved !in reserved && saved != 0 {
      if Bindable(saved, env, live) {
        return Some(saved);
      }
    }
    r := BindNear(near, reserved, env, live);
  }

  lemma BoundIsBindable(saved: Port, near: Port, reserved: set<Port>, env: Env, live: set<Port>)
    ensures var r := Rebind(saved, near, reserved, env, live);
            r.Some? ==> Bindable(r.value, env, live)
    ensures var r := Near(near, 0, reserved, env, live);
            r.Some? ==> Bindable(r.value, env, live)
  {
    hide Near;
    NearMeaning(near, 0, reserved, env, live);
  }

  // ---- the table -------------------------------------------------------------

  function Locals(rows: seq<Row>): set<Port> {
    set i | 0 <= i < |rows| :: rows[i].localPort
  }

  predicate SameKey(r: Row, q: Row) {
    r.service == q.service && r.containerPort == q.containerPort
  }

  predicate UniqueLocals(rows: seq<Row>) {
    forall i, j :: 0 <= i < |rows| && 0 <= j < |rows| && rows[i].localPort == rows[j].localPort ==> i == j
  }

  ghost predicate Distinct(ps: seq<Port>) {
    forall i, j :: 0 <= i < j < |ps| ==> ps[i] != ps[j]
  }

  /** A moved port is written to every row with the key of the moved one. */
  function Updated(rows: seq<Row>, key: Row, p: Port): (r: seq<Row>)
    ensures |r| == |rows|
  {
    seq(|rows|, i requires 0 <= i < |rows| => if SameKey(rows[i], key) then rows[i].(localPort := p) else rows[i])
  }

  /** The update moves the rows of one service and container port, and no other. */
  lemma UpdatedRow(rows: seq<Row>, key: Row, p: Port, i: nat)
    requires i < |rows|
    ensures Updated(rows, key, p)[i] ==
            if rows[i].service == key.service && rows[i].containerPort == key.containerPort
            then Row(rows[i].service, rows[i].containerPort, p) else rows[i]
  {
  }

  /** Row `|before|` lands on `p` when the rows before it landed on `before`: the rebind
      yields `p`, and a port that moved is recorded neither by another pod nor by a row
      still to come, and its row shares its key with no other. */
  ghost predicate Lands(rows: seq<Row>, others: set<Port>, envs: seq<Env>, before: seq<Port>, p: Port)
    requires |before| < |rows| == |envs|
  {
    var i, live := |before|, PortSet(before);
    && Rebind(rows[i].localPort, rows[i].containerPort, others + live, envs[i], live) == Some(p)
    && (p != rows[i].localPort ==> p !in others && Movable(rows, i, p))
  }

  /** The table can record that row `i` moved to `p`. */
  ghost predicate Movable(rows: seq<Row>, i: nat, p: Port)
    requires i < |rows|
  {
    p !in Later(rows, i) && forall j :: 0 <= j < |rows| && SameKey(rows[j], rows[i]) ==> j == i
  }

  /** The saved ports of the rows after `i`. */
  function Later(rows: seq<Row>, i: nat): set<Port> {
    set j | i < j < |rows| :: rows[j].localPort
  }

  /** The first `|all|` rows land on `all`. */
  ghost predicate Assigned(rows: seq<Row>, others: set<Port>, envs: seq<Env>, all: seq<Port>)
    requires |rows| == |envs|
  {
    |all| <= |rows| && forall i :: 0 <= i < |all| ==> Lands(rows, others, envs, all[..i], all[i])
  }

  /** Every row finds a place. */
  ghost predicate Placed(rows: seq<Row>, others: set<Port>, envs: seq<Env>, all: seq<Port>)
    requires |rows| == |envs|
  {
    |all| == |rows| && Assigned(rows, others, envs, all)
  }

  lemma AssignedMore(rows: seq<Row>, others: set<Port>, envs: seq<Env>, all: seq<Port>, p: Port)
    requires |rows| == |envs| && |all| < |rows|
    requires Assigned(rows, others, envs, all) && Lands(rows, others, envs, all, p)
    ensures Assigned(rows, others, envs, all + [p])
  {
    hide Lands;
    var next := all + [p];
    forall i | 0 <= i < |next| ensures Lands(rows, others, envs, next[..i], next[i]) {
      if i < |all| {
        assert next[..i] == all[..i];
      } else {
        assert next[..i] == all;
      }
    }
  }

  lemma AssignedLess(rows: seq<Row>, others: set<Port>, envs: seq<Env>, all: seq<Port>, n: nat)
    requires |rows| == |envs| && Assigned(rows, others, envs, all) && n <= |all|
    ensures Assigned(rows, others, envs, all[..n])
  {
    hide Lands;
    forall i | 0 <= i < n ensures Lands(rows, others, envs, all[..n][..i], all[i]) {
      assert all[..n][..i] == all[..i];
    }
  }

  lemma SameLanding(rows: seq<Row>, others: set<Port>, envs: seq<Env>, before: seq<Port>, p: Port, q: Port)
    requires |before| < |rows| == |envs| && Lands(rows, others, envs, before, p) && Lands(rows, others, envs, before, q)
    ensures p == q
  {
  }

  /** Where a row lands is determined. */
  lemma {:induction false} AssignedUnique(rows: seq<Row>, others: set<Port>, envs: seq<Env>, a: seq<Port>, b: seq<Port>)
    requires |rows| == |envs| && |a| <= |b| && Assigned(rows, others, envs, a) && Assigned(rows, others, envs, b)
    ensures a == b[..|a|]
  {
    hide Lands;
    if a != [] {
      var n := |a| - 1;
      var front := a[..n];
      AssignedLess(rows, others, envs, a, n);
      AssignedUnique(rows, others, envs, front, b);
      assert Lands(rows, others, envs, a[..n], a[n]) && Lands(rows, others, envs, b[..n], b[n]);
      SameLanding(rows, others, envs, front, a[n], b[n]);
      assert b[..n + 1] == b[..n] + [b[n]] && a == front + [a[n]];
    }
  }

  lemma NextLands(rows: seq<Row>, others: set<Port>, envs: seq<Env>, before: seq<Port>, all: seq<Port>)
    requires |rows| == |envs| && |before| < |rows| && Assigned(rows, others, envs, before)
    requires Placed(rows, others, envs, all)
    ensures Lands(rows, others, envs, before, all[|before|])
  {
    AssignedUnique(rows, others, envs, before, all);
    assert Lands(rows, others, envs, all[..|before|], all[|before|]);
  }

  /** A pass that stops at some row cannot be completed in another way. */
  lemma Stuck(rows: seq<Row>, others: set<Port>, envs: seq<Env>, before: seq<Port>)
    requires |rows| == |envs| && |before| < |rows| && Assigned(rows, others, envs, before)
    requires forall p :: !Lands(rows, others, envs, before, p)
    ensures forall all :: !Placed(rows, others, envs, all)
  {
    hide Lands, Assigned;
    forall all | Placed(rows, others, envs, all) ensures false {
      NextLands(rows, others, envs, before, all);
    }
  }

  /** Ports a pass assigns are distinct, and clear of other pods and of rows to come. */
  lemma {:induction false} AssignedClear(rows: seq<Row>, others: set<Port>, envs: seq<Env>, all: seq<Port>, i: nat)
    requires |rows| == |envs| && UniqueLocals(rows) && Locals(rows) !! others
    requires Assigned(rows, others, envs, all) && i < |all|
    ensures all[i] !in all[..i] && all[i] !in others && all[i] !in Later(rows, i)
  {
    assert Lands(rows, others, envs, all[..i], all[i]);
    BoundIsBindable(rows[i].localPort, rows[i].containerPort, others + PortSet(all[..i]), envs[i], PortSet(all[..i]));
    hide Rebind;
    assert rows[i].localPort in Locals(rows);
  }

  // ---- the pass ----------------------------------------------------------------

  /** What the table holds after the rows before `i`. */
  ghost predicate Stored(existing: seq<Row>, rows: seq<Row>, listeners: seq<Port>) {
    && |rows| == |existing| && |listeners| <= |rows|
    && (forall j :: 0 <= j < |rows| ==> SameKey(rows[j], existing[j]))
    && (forall j :: 0 <= j < |listeners| ==> rows[j].localPort == listeners[j])
    && (forall j :: |listeners| <= j < |rows| ==> rows[j] == existing[j])
  }

  /** A saved port that can be bound when its row is reached stays. */
  ghost predicate KeptIfFree(saved: Row, row: Row, env: Env, before: seq<Port>) {
    Bindable(saved.localPort, env, PortSet(before)) ==> row.localPort == saved.localPort
  }

  /** The unique index accepts the update of a moved row exactly when the row is movable:
      rows already rebound never clash. */
  lemma IndexAccepts(existing: seq<Row>, rows: seq<Row>, listeners: seq<Port>, p: Port)
    requires Stored(existing, rows, listeners) && |listeners| < |rows| && p !in listeners
    requires UniqueLocals(rows) && p != rows[|listeners|].localPort
    ensures UniqueLocals(Updated(rows, rows[|listeners|], p)) <==> Movable(existing, |listeners|, p)
  {
    var i := |listeners|;
    if Movable(existing, i, p) {
      OnlyRow(existing, rows, i, p);
      forall j | 0 <= j < |rows| && j != i ensures rows[j].localPort != p {
        if j < i {
          assert listeners[j] in listeners;
        } else {
          assert existing[j].localPort in Later(existing, i);
        }
      }
    } else {
      NotMovable(existing, rows, listeners, p);
    }
  }

  lemma OnlyRow(existing: seq<Row>, rows: seq<Row>, i: nat, p: Port)
    requires |rows| == |existing| && i < |rows| && forall j :: 0 <= j < |rows| ==> SameKey(rows[j], existing[j])
    requires forall j :: 0 <= j < |existing| && SameKey(existing[j], existing[i]) ==> j == i
    ensures Updated(rows, rows[i], p) == rows[i := rows[i].(localPort := p)]
  {
    forall j | 0 <= j < |rows| && SameKey(rows[j], rows[i]) ensures j == i {
      assert SameKey(existing[j], existing[i]);
    }
  }

  lemma NotMovable(existing: seq<Row>, rows: seq<Row>, listeners: seq<Port>, p: Port)
    requires Stored(existing, rows, listeners) && |listeners| < |rows| && !Movable(existing, |listeners|, p)
    ensures !UniqueLocals(Updated(rows, rows[|listeners|], p))
  {
    var i := |listeners|;
    var next := Updated(rows, rows[i], p);
    assert next[i].localPort == p;
    if p in Later(existing, i) {
      var j :| i < j < |existing| && existing[j].localPort == p;
      assert rows[j].localPort == p && next[j].localPort == p;
    } else {
      var j :| 0 <= j < |existing| && SameKey(existing[j], existing[i]) && j != i;
      assert SameKey(rows[j], rows[i]) && next[j].localPort == p;
    }
  }

  lemma StoredMore(existing: seq<Row>, rows: seq<Row>, listeners: seq<Port>, p: Port)
    requires Stored(existing, rows, listeners) && |listeners| < |rows|
    ensures var i := |listeners|;
            Stored(existing, rows[i := rows[i].(localPort := p)], listeners + [p])
            && Locals(rows[i := rows[i].(localPort := p)]) <= Locals(rows) + {p}
  {
    var i := |listeners|;
    var next := rows[i := rows[i].(localPort := p)];
    forall q | q in Locals(next) ensures q in Locals(rows) + {p} {
      var j :| 0 <= j < |next| && next[j].localPort == q;
      assert j == i || rows[j].localPort in Locals(rows);
    }
  }

  /** The pass over a pod that already has rows.  It completes exactly when every row
      finds a place; then the listeners are those places, match the table row by row,
      are pairwise distinct and clear of other pods, and free saved ports are kept.
      However it ends, the table is fit for another pass. */
  method Reconnect(existing: seq<Row>, others: set<Port>, envs: seq<Env>)
    returns (rows: seq<Row>, listeners: seq<Port>, ok: bool)
    requires |envs| == |existing| && UniqueLocals(existing) && Locals(existing) !! others
    ensures ok <==> exists all :: Placed(existing, others, envs, all)
    ensures ok ==> Placed(existing, others, envs, listeners)
    ensures ok ==> |rows| == |listeners| == |existing| && Distinct(listeners) && PortSet(listeners) !! others
    ensures ok ==> forall i :: 0 <= i < |rows| ==>
              rows[i].localPort == listeners[i] && KeptIfFree(existing[i], rows[i], envs[i], listeners[..i])
    ensures UniqueLocals(rows) && Locals(rows) !! others
    ensures |rows| == |existing| && forall i :: 0 <= i < |rows| ==>
              rows[i].service == existing[i].service && rows[i].containerPort == existing[i].containerPort
  {
    hide Rebind, Lands, Assigned, NearChoice, Candidate, OsAssigned, UniqueLocals, Later, Locals, Movable, Updated;
    rows, listeners := existing, [];
    // what other pods have in the table, then also what this pass has bound
    var reserved := others;
    NothingAssigned(existing, others, envs);
    for i := 0 to |existing|
      invariant |listeners| == i && Stored(existing, rows, listeners) && Assigned(existing, others, envs, listeners)
      invariant UniqueLocals(rows) && Locals(rows) !! others
      invariant reserved == others + PortSet(listeners)
    {
      var bound := RebindOrNear(rows[i].localPort, rows[i].containerPort, reserved, envs[i], PortSet(listeners));
      if bound.None? {
        Unplaced(existing, others, envs, listeners);
        return rows, listeners, false;
      }
      var actual := bound.value;
      StoredMore(existing, rows, listeners, actual);
      if actual != rows[i].localPort {
        IndexAccepts(existing, rows, listeners, actual);
        var updated := Updated(rows, rows[i], actual);
        if actual in others || !UniqueLocals(updated) {
          Unplaced(existing, others, envs, listeners);
          return rows, listeners, false;
        }
        assert updated == rows[i := rows[i].(localPort := actual)] by { Moved(existing, rows, i, actual); }
        rows := updated;
      } else {
        assert rows == rows[i := rows[i].(localPort := actual)];
      }
      AssignedMore(existing, others, envs, listeners, actual) by { Landed(existing, others, envs, listeners, actual); }
      PortSetAppend(listeners, actual);
      reserved := reserved + {actual};
      listeners := listeners + [actual];
    }
    assert Placed(existing, others, envs, listeners);
    PassEnd(existing, rows, listeners, others, envs);
    ok := true;
  }

  lemma Moved(existing: seq<Row>, rows: seq<Row>, i: nat, p: Port)
    requires |rows| == |existing| && i < |rows| && forall j :: 0 <= j < |rows| ==> SameKey(rows[j], existing[j])
    requires Movable(existing, i, p)
    ensures Updated(rows, rows[i], p) == rows[i := rows[i].(localPort := p)]
  {
    OnlyRow(existing, rows, i, p);
  }

  lemma NothingAssigned(rows: seq<Row>, others: set<Port>, envs: seq<Env>)
    requires |rows| == |envs|
    ensures Assigned(rows, others, envs, []) && PortSet([]) == {}
  {
  }

  lemma Landed(rows: seq<Row>, others: set<Port>, envs: seq<Env>, before: seq<Port>, p: Port)
    requires |before| < |rows| == |envs|
    requires var i, live := |before|, PortSet(before);
             Rebind(rows[i].localPort, rows[i].containerPort, others + live, envs[i], live) == Some(p)
    requires p != rows[|before|].localPort ==> p !in others && Movable(rows, |before|, p)
    ensures Lands(rows, others, envs, before, p)
  {
    hide Rebind;
  }

  /** Nothing could be bound, or what was bound is recorded elsewhere. */
  lemma Unplaced(rows: seq<Row>, others: set<Port>, envs: seq<Env>, before: seq<Port>)
    requires |before| < |rows| == |envs| && Assigned(rows, others, envs, before)
    requires var i, live := |before|, PortSet(before);
             var r := Rebind(rows[i].localPort, rows[i].containerPort, others + live, envs[i], live);
             r.Some? ==> r.value != rows[i].localPort && (r.value in others || !Movable(rows, i, r.value))
    ensures forall all :: !Placed(rows, others, envs, all)
  {
    hide Rebind, Assigned, Placed;
    Stuck(rows, others, envs, before);
  }

  lemma PassEnd(existing: seq<Row>, rows: seq<Row>, listeners: seq<Port>, others: set<Port>, envs: seq<Env>)
    requires |envs| == |existing| && UniqueLocals(existing) && Locals(existing) !! others
    requires Placed(existing, others, envs, listeners) && Stored(existing, rows, listeners)
    ensures Distinct(listeners) && PortSet(listeners) !! others
    ensures forall i :: 0 <= i < |rows| ==> KeptIfFree(existing[i], rows[i], envs[i], listeners[..i])
  {
    forall i | 0 <= i < |listeners|
      ensures listeners[i] !in listeners[..i] && listeners[i] !in others
      ensures KeptIfFree(existing[i], rows[i], envs[i], listeners[..i])
    {
      AssignedClear(existing, others, envs, listeners, i);
      KeptHere(existing, others, envs, listeners, i);
    }
    hide Placed, KeptIfFree;
    forall i, j | 0 <= i < j < |listeners| ensures listeners[i] != listeners[j] {
      assert listeners[..j][i] == listeners[i];
    }
  }

  lemma KeptHere(rows: seq<Row>, others: set<Port>, envs: seq<Env>, all: seq<Port>, i: nat)
    requires |rows| == |envs| && Locals(rows) !! others && Assigned(rows, others, envs, all) && i < |all|
    ensures Bindable(rows[i].localPort, envs[i], PortSet(all[..i])) ==> all[i] == rows[i].localPort
  {
    hide Near;
    assert Lands(rows, others, envs, all[..i], all[i]);
    assert rows[i].localPort in Locals(rows);
  }

  function PortSet(ps: seq<Port>): set<Port> {
    set p | p in ps
  }

  lemma PortSetAppend(ps: seq<Port>, p: Port)
    ensures PortSet(ps + [p]) == PortSet(ps) + {p}
  {
  }

  /** A pod whose saved ports are all free gets every one of them back. */
  lemma {:induction false} AllFree(rows: seq<Row>, others: set<Port>, envs: seq<Env>, n: nat)
    requires |rows| == |envs| && UniqueLocals(rows) && Locals(rows) !! others && n <= |rows|
    requires forall i :: 0 <= i < n ==> rows[i].localPort != 0 && rows[i].localPort !in envs[i].busy
    ensures Assigned(rows, others, envs, Saved(rows)[..n])
    ensures n == |rows| ==> Placed(rows, others, envs, Saved(rows))
  {
    var all := Saved(rows);
    assert all[..|rows|] == all;
    if n > 0 {
      var before := all[..n - 1];
      AllFree(rows, others, envs, n - 1);
      assert rows[n - 1].localPort in Locals(rows);
      assert Lands(rows, others, envs, before, all[n - 1]);
      AssignedMore(rows, others, envs, before, all[n - 1]);
      assert before + [all[n - 1]] == all[..n];
    }
  }

  function Saved(rows: seq<Row>): (r: seq<Port>)
    ensures |r| == |rows|
  {
    seq(|rows|, i requires 0 <= i < |rows| => rows[i].localPort)
  }

  /** When another process took a row's saved port and its container port is the free
      saved port of a later row, the pass fails, whatever happened before. */
  lemma ReclaimCollision(rows: seq<Row>, others: set<Port>, envs: seq<Env>, i: nat, j: nat)
    requires |envs| == |rows| && UniqueLocals(rows) && Locals(rows) !! others && i < j < |rows|
    requires rows[i].localPort in envs[i].busy && rows[i].containerPort == rows[j].localPort
    requires rows[j].localPort != 0 && rows[j].localPort !in envs[i].busy
    ensures forall all :: !Placed(rows, others, envs, all)
  {
    forall all | Placed(rows, others, envs, all) ensures false {
      forall k | 0 <= k < i ensures all[k] != rows[j].localPort {
        AssignedClear(rows, others, envs, all, k);
      }
      TakesLater(rows, others, envs, all[..i], j, all[i]);
    }
  }

  /** So does a row whose saved port is taken and whose key another row has, as a
      repeated entry of the configuration leaves it. */
  lemma SharedKeyFails(rows: seq<Row>, others: set<Port>, envs: seq<Env>, i: nat, j: nat)
    requires |envs| == |rows| && i < |rows| && j < |rows| && i != j && SameKey(rows[j], rows[i])
    requires rows[i].localPort in envs[i].busy
    ensures forall all :: !Placed(rows, others, envs, all)
  {
    forall all | Placed(rows, others, envs, all) ensures false {
      StuckRow(rows, others, envs, all[..i], j, all[i]);
    }
  }

  lemma StuckRow(rows: seq<Row>, others: set<Port>, envs: seq<Env>, before: seq<Port>, j: nat, q: Port)
    requires |before| < |rows| == |envs| && j < |rows| && j != |before| && SameKey(rows[j], rows[|before|])
    requires rows[|before|].localPort in envs[|before|].busy
    ensures !Lands(rows, others, envs, before, q)
  {
    var i, live := |before|, PortSet(before);
    BoundIsBindable(rows[i].localPort, rows[i].containerPort, others + live, envs[i], live);
    hide Rebind;
  }

  lemma TakesLater(rows: seq<Row>, others: set<Port>, envs: seq<Env>, before: seq<Port>, j: nat, q: Port)
    requires |envs| == |rows| && UniqueLocals(rows) && Locals(rows) !! others && |before| < j < |rows|
    requires var i := |before|;
             rows[i].localPort in envs[i].busy && rows[i].containerPort == rows[j].localPort
             && Bindable(rows[j].localPort, envs[i], {}) && rows[j].localPort !in before
    ensures !Lands(rows, others, envs, before, q)
  {
    var p, live := rows[j].localPort, PortSet(before);
    assert p in Locals(rows) && p in Later(rows, |before|);
    assert Near(p, 0, others + live, envs[|before|], live) == Some(p);
  }

  /** The port the next row gets from `bind_near`. */
  ghost predicate Picked(preferred: Port, taken: set<Port>, env: Env, before: seq<Port>, p: Port) {
    Near(preferred, 0, taken + PortSet(before), env, PortSet(before)) == Some(p)
  }

  ghost predicate NoCandidate(preferred: Port, taken: set<Port>, env: Env, before: seq<Port>) {
    forall c: Port :: !Candidate(c, preferred, taken + PortSet(before), env, PortSet(before))
  }

  /** The pass over a pod without rows.  It fails only where the near range has no
      candidate left and the kernel assigns nothing, or a port some row already has. */
  method FirstSetup(specs: seq<(string, Port)>, taken: set<Port>, envs: seq<Env>)
    returns (rows: seq<Row>, listeners: seq<Port>, ok: bool)
    requires |envs| == |specs|
    ensures |rows| == |listeners| && UniqueLocals(rows) && Locals(rows) !! taken
    ensures ok ==> |rows| == |specs| && Distinct(listeners) && PortSet(listeners) !! taken
    ensures ok ==> forall i :: 0 <= i < |rows| ==> rows[i] == Row(specs[i].0, specs[i].1, listeners[i])
    ensures ok ==> forall i :: 0 <= i < |rows| ==> Picked(specs[i].1, taken, envs[i], listeners[..i], listeners[i])
    ensures !ok ==>
              && |listeners| < |specs|
              && NoCandidate(specs[|listeners|].1, taken, envs[|listeners|], listeners)
              && (forall p :: Picked(specs[|listeners|].1, taken, envs[|listeners|], listeners, p) ==> p in taken)
  {
    hide Near, NearChoice, NoCandidate, Candidate, OsAssigned, Bindable, SetUp;
    rows, listeners := [], [];
    var reserved := taken;
    NothingSetUp(specs, taken, envs);
    for i := 0 to |specs|
      invariant |rows| == |listeners| == i && SetUp(specs, taken, envs, rows, listeners)
      invariant reserved == taken + PortSet(listeners)
    {
      var bound := BindNear(specs[i].1, reserved, envs[i], PortSet(listeners));
      if bound.None? || bound.value in taken {
        NearFails(specs[i].1, taken, envs[i], listeners, bound);
        RowsClear(specs, taken, envs, rows, listeners);
        return rows, listeners, false;
      }
      var port := bound.value;
      SetUpMore(specs, taken, envs, rows, listeners, port);
      PortSetAppend(listeners, port);
      reserved := reserved + {port};
      rows := rows + [Row(specs[i].0, specs[i].1, port)];
      listeners := listeners + [port];
    }
    RowsClear(specs, taken, envs, rows, listeners);
    SetUpEnds(specs, taken, envs, rows, listeners);
    ok := true;
  }

  /** The first `|rows|` entries have their rows and listeners. */
  ghost predicate SetUp(specs: seq<(string, Port)>, taken: set<Port>, envs: seq<Env>, rows: seq<Row>, listeners: seq<Port>) {
    && |rows| == |listeners| <= |specs| == |envs|
    && Distinct(listeners) && PortSet(listeners) !! taken
    && forall j :: 0 <= j < |rows| ==> Entry(specs, taken, envs, rows[j], listeners[..j], listeners[j])
  }

  ghost predicate Entry(specs: seq<(string, Port)>, taken: set<Port>, envs: seq<Env>, row: Row, before: seq<Port>, p: Port)
    requires |before| < |specs| == |envs|
  {
    var i := |before|;
    row == Row(specs[i].0, specs[i].1, p) && Picked(specs[i].1, taken, envs[i], before, p)
  }

  lemma NothingSetUp(specs: seq<(string, Port)>, taken: set<Port>, envs: seq<Env>)
    requires |specs| == |envs|
    ensures SetUp(specs, taken, envs, [], []) && PortSet([]) == {}
  {
  }

  lemma SetUpMore(specs: seq<(string, Port)>, taken: set<Port>, envs: seq<Env>, rows: seq<Row>, listeners: seq<Port>, p: Port)
    requires SetUp(specs, taken, envs, rows, listeners) && |rows| < |specs| && p !in taken
    requires Picked(specs[|rows|].1, taken, envs[|rows|], listeners, p)
    ensures SetUp(specs, taken, envs, rows + [Row(specs[|rows|].0, specs[|rows|].1, p)], listeners + [p])
  {
    hide Entry, Picked, Distinct, PortSet;
    var i := |rows|;
    ListenerAdded(specs[i].1, taken, envs[i], listeners, p);
    var rs, ls := rows + [Row(specs[i].0, specs[i].1, p)], listeners + [p];
    forall j | 0 <= j <= i ensures Entry(specs, taken, envs, rs[j], ls[..j], ls[j]) {
      if j < i {
        assert ls[..j] == listeners[..j];
        assert Entry(specs, taken, envs, rows[j], listeners[..j], listeners[j]);
      } else {
        assert ls[..j] == listeners;
        EntryAdded(specs, taken, envs, listeners, p);
      }
    }
  }

  lemma EntryAdded(specs: seq<(string, Port)>, taken: set<Port>, envs: seq<Env>, before: seq<Port>, p: Port)
    requires |before| < |specs| == |envs| && Picked(specs[|before|].1, taken, envs[|before|], before, p)
    ensures Entry(specs, taken, envs, Row(specs[|before|].0, specs[|before|].1, p), before, p)
  {
    hide Picked;
  }

  lemma ListenerAdded(preferred: Port, taken: set<Port>, env: Env, listeners: seq<Port>, p: Port)
    requires Picked(preferred, taken, env, listeners, p) && p !in taken
    requires Distinct(listeners) && PortSet(listeners) !! taken
    ensures Distinct(listeners + [p]) && PortSet(listeners + [p]) !! taken
  {
    hide Near;
    BoundIsBindable(p, preferred, taken + PortSet(listeners), env, PortSet(listeners));
    PortSetAppend(listeners, p);
  }

  lemma SetUpEnds(specs: seq<(string, Port)>, taken: set<Port>, envs: seq<Env>, rows: seq<Row>, listeners: seq<Port>)
    requires SetUp(specs, taken, envs, rows, listeners)
    ensures Distinct(listeners) && PortSet(listeners) !! taken
    ensures forall i :: 0 <= i < |rows| ==> rows[i] == Row(specs[i].0, specs[i].1, listeners[i])
    ensures forall i :: 0 <= i < |rows| ==> Picked(specs[i].1, taken, envs[i], listeners[..i], listeners[i])
  {
    hide Picked;
    forall i | 0 <= i < |rows|
      ensures rows[i] == Row(specs[i].0, specs[i].1, listeners[i])
      ensures Picked(specs[i].1, taken, envs[i], listeners[..i], listeners[i])
    {
      assert Entry(specs, taken, envs, rows[i], listeners[..i], listeners[i]);
    }
  }

  lemma NearFails(preferred: Port, taken: set<Port>, env: Env, before: seq<Port>, r: Option<Port>)
    requires r == Near(preferred, 0, taken + PortSet(before), env, PortSet(before)) && (r.Some? ==> r.value in taken)
    ensures NoCandidate(preferred, taken, env, before)
    ensures forall p :: Picked(preferred, taken, env, before, p) ==> p in taken
  {
    hide Near;
    NearMeaning(preferred, 0, taken + PortSet(before), env, PortSet(before));
  }

  lemma RowsClear(specs: seq<(string, Port)>, taken: set<Port>, envs: seq<Env>, rows: seq<Row>, listeners: seq<Port>)
    requires SetUp(specs, taken, envs, rows, listeners)
    ensures UniqueLocals(rows) && Locals(rows) !! taken
  {
    SetUpEnds(specs, taken, envs, rows, listeners);
    hide SetUp;
    forall p | p in Locals(rows) ensures p !in taken {
      var j :| 0 <= j < |rows| && rows[j].localPort == p;
      assert listeners[j] in PortSet(listeners);
    }
  }
}
