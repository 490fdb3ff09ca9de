// Logical sessions over one connection (src/session.rs): transaction ownership, isolation and
// what the committed state is after any interleaving.
module Sessions {
  import opened Wrappers
  import opened Bytes

  // A unit of work: the database after it, or nothing when the statement fails and is undone.
  type Work<!D> = D -> Option<D>

  datatype Statement<!D> =
    | Begin
    | Commit
    | Rollback
    | Savepoint(name: string)
    | RollbackTo(name: string)
    | Release(name: string)
    | Run(work: Work<D>)

  function LowerCase(name: string): (s: string)
    ensures |s| == |name|
  {
    seq(|name|, i requires 0 <= i < |name| => if 'A' <= name[i] <= 'Z' then name[i] - 'A' + 'a' else name[i])
  }

  predicate SameLetter(c: char, d: char) {
    || c == d
    || ('A' <= c <= 'Z' && d as int == c as int + 32)
    || ('A' <= d <= 'Z' && c as int == d as int + 32)
  }

  // Two names are the same up to the case of ASCII letters, 'a' being 32 behind 'A'.
  lemma SameNames(a: string, b: string)
    ensures LowerCase(a) == LowerCase(b) <==>
      && |a| == |b|
      && forall i :: 0 <= i < |a| ==> SameLetter(a[i], b[i])
  {
    var x, y := LowerCase(a), LowerCase(b);
    if |a| == |b| {
      assert x == y <==> forall i :: 0 <= i < |x| ==> x[i] == y[i];
      forall i | 0 <= i < |a| ensures x[i] == y[i] <==> SameLetter(a[i], b[i]) {
      }
    }
  }

  // The newest entry of that name, upper and lower case being the same.
  function Position<T>(named: seq<(string, T)>, name: string): (p: Option<nat>)
    ensures p.Some? ==> p.value < |named| && LowerCase(named[p.value].0) == LowerCase(name)
    ensures forall i :: (if p.Some? then p.value + 1 else 0) <= i < |named| ==> LowerCase(named[i].0) != LowerCase(name)
  {
    if |named| == 0 then None
    else if LowerCase(named[|named| - 1].0) == LowerCase(name) then Some(|named| - 1)
    else Position(named[..|named| - 1], name)
  }

  // The connection: the committed database and, inside a transaction, the database as changed so far
  // and as it was at each savepoint.  Once broken it has to be opened anew.
  datatype Connection<D> = Connection(committed: D, working: Option<D>, saved: seq<(string, D)>, broken: bool)
  {
    predicate IsInTransaction() {
      working.Some?
    }

    // One statement; io tells whether the storage works.  A failed commit leaves the transaction
    // open, a failed rollback has ended it, and a failed ROLLBACK TO got no further than the newest
    // savepoint.
    function Execute(s: Statement<D>, io: bool): (Connection<D>, bool) {
      match s
      case Begin =>
        if working.Some? || broken || !io then (this, false) else (Connection(committed, Some(committed), [], false), true)
      case Commit => if working.None? || !io then (this, false) else (Connection(working.value, None, [], false), true)
      case Rollback => if working.None? then (this, false) else (Connection(committed, None, [], !io), io)
      case Savepoint(name) =>
        if working.Some? then (this.(saved := saved + [(name, working.value)]), true)
        else if broken || !io then (this, false)
        else (Connection(committed, Some(committed), [(name, committed)], false), true)
      case RollbackTo(name) =>
        var p := Position(saved, name);
        var last := |saved| - 1;
        if p.None? then (this, false)
        else if io then
          (this.(working := Some(saved[p.value].1), saved := saved[..p.value] + [(name, saved[p.value].1)]), true)
        else (this.(working := Some(saved[last].1), saved := saved[..last]), false)
      case Release(name) =>
        var p := Position(saved, name);
        if p.None? then (this, false) else (this.(saved := saved[..p.value]), true)
      case Run(work) => if broken || !io then (this, false) else Worked(work)
    }

    // A statement of its own, or one in the open transaction; if it fails it leaves no trace.
    function Worked(work: Work<D>): (Connection<D>, bool) {
      match work(if working.Some? then working.value else committed)
      case None => (this, false)
      case Some(d) => (if working.Some? then this.(working := Some(d)) else this.(committed := d), true)
    }
  }

  // Statements one after the other, each with what the storage does.
  function Executed<D>(c: Connection<D>, statements: seq<(Statement<D>, bool)>): Connection<D>
    decreases |statements|
  {
    if |statements| == 0 then c else Executed(c.Execute(statements[0].0, statements[0].1).0, statements[1..])
  }

  // Work, and savepoints of other names.
  predicate Beyond<D>(s: Statement<D>, name: string) {
    s.Run? || (s.Savepoint? && LowerCase(s.name) != LowerCase(name))
  }

  // Going back to a savepoint undoes all that was done since: the connection is what it was then, up to
  // the spelling of the name.
  lemma RollbackToUndoes<D>(c: Connection<D>, name: string, io: bool, since: seq<(Statement<D>, bool)>, again: string)
    requires c.Execute(Savepoint(name), io).1 && LowerCase(again) == LowerCase(name)
    requires forall s :: s in since ==> Beyond(s.0, name)
    ensures var marked := c.Execute(Savepoint(name), io).0;
            Executed(marked, since).Execute(RollbackTo(again), true) == (c.Execute(Savepoint(again), io).0, true)
  {
    hide Connection.Execute, LowerCase, Executed;
    var marked, n := c.Execute(Savepoint(name), io).0, |c.Execute(Savepoint(name), io).0.saved|;
    MarkedBy(c, name, io);
    MarkedBy(c, again, io);
    BeyondKeeps(marked, name, n, since);
    var t := Executed(marked, since);
    assert marked.saved[..n] == marked.saved;
    assert t.saved[n - 1] == t.saved[..n][n - 1];
    assert t.saved[..n][..n - 1] == t.saved[..n - 1];
    BackTo(t, n - 1, again);
  }

  // A savepoint that could be made.
  lemma MarkedBy<D>(c: Connection<D>, name: string, io: bool)
    ensures var (marked, ok) := c.Execute(Savepoint(name), io); var n := |marked.saved| - 1;
            && (ok <==> c.IsInTransaction() || (!c.broken && io))
            && (ok ==>
                  && var saved := if c.IsInTransaction() then c.saved else [];
                  var d := if c.IsInTransaction() then c.working.value else c.committed;
                  && n >= 0 && marked.saved[..n] == saved && marked.saved[n] == (name, d)
                  && marked == Connection(c.committed, Some(d), saved + [(name, d)], c.broken))
  {
  }

  lemma BackTo<D>(c: Connection<D>, p: nat, name: string)
    requires p < |c.saved| && LowerCase(c.saved[p].0) == LowerCase(name)
    requires forall i :: p < i < |c.saved| ==> LowerCase(c.saved[i].0) != LowerCase(name)
    ensures c.Execute(RollbackTo(name), true)
         == (c.(working := Some(c.saved[p].1), saved := c.saved[..p] + [(name, c.saved[p].1)]), true)
  {
    hide LowerCase;
    assert Position(c.saved, name) == Some(p);
  }

  // The savepoints there were stay the first ones.
  lemma {:induction false} BeyondKeeps<D>(c: Connection<D>, name: string, n: nat, since: seq<(Statement<D>, bool)>)
    requires c.IsInTransaction() && n <= |c.saved|
    requires forall s :: s in since ==> Beyond(s.0, name)
    requires forall i :: n <= i < |c.saved| ==> LowerCase(c.saved[i].0) != LowerCase(name)
    ensures var t := Executed(c, since);
            && t.IsInTransaction() && t.committed == c.committed && t.broken == c.broken
            && n <= |t.saved| && t.saved[..n] == c.saved[..n]
            && forall i :: n <= i < |t.saved| ==> LowerCase(t.saved[i].0) != LowerCase(name)
    decreases |since|
  {
    hide LowerCase;
    if |since| > 0 {
      var (s, io) := since[0];
      assert since[0] in since && forall s :: s in since[1..] ==> s in since;
      assert Beyond(s, name);
      BeyondKeeps(c.Execute(s, io).0, name, n, since[1..]);
    }
  }

  // What the sessions share, with the closed flags of their handles and the handles still held.
  datatype State<D> = State(connection: Option<Connection<D>>, owner: Option<u64>, nextId: u64, poisoned: bool,
                            closed: set<u64>, held: set<u64>)

  const LAST_ID: u64 := 0xFFFF_FFFF_FFFF_FFFF

  function Fresh<D>(d: D): State<D> {
    State(Some(Connection(d, None, [], false)), None, 1, false, {}, {})
  }

  // A call: of a session by its id, or of the database.  Access is any statement or memory
  // operation; DropLast the end of a session's last handle.
  datatype Action<!D> =
    | OpenSession
    | Access(id: u64, statement: Statement<D>, io: bool)
    | CloseSession(id: u64, io: bool)
    | DropLast(id: u64, io: bool)
    | CloseDatabase(io: bool)

  // Whether access lets a session in, now.
  function Admit<D>(s: State<D>, id: u64): Result<()> {
    if id in s.closed then Err(TransactionError)
    else if s.poisoned then Err(TransactionError)
    else if s.connection.None? then Err(TransactionError)
    else if s.owner.Some? && s.owner.value != id then Err(Busy)
    else Ok(())
  }

  function Accessed<D>(s: State<D>, id: u64, statement: Statement<D>, io: bool): (State<D>, Result<()>) {
    var admitted := Admit(s, id);
    if admitted.Err? then (s, admitted)
    else
      var (c, ok) := s.connection.value.Execute(statement, io);
      (s.(connection := Some(c), owner := if c.IsInTransaction() then Some(id) else None),
       if ok then Ok(()) else Err(ConstraintViolation))
  }

  function Step<D>(s: State<D>, a: Action<D>): (State<D>, Result<()>) {
    match a
    case OpenSession =>
      if s.connection.None? then (s, Err(TransactionError))
      else if s.nextId == LAST_ID then (s, Err(ConstraintViolation))
      else (s.(nextId := s.nextId + 1, held := s.held + {s.nextId}), Ok(()))
    case Access(id, statement, io) => Accessed(s, id, statement, io)
    case CloseSession(id, io) =>
      if id in s.closed then (s, Ok(()))
      else if s.owner == Some(id) && s.connection.Some? then
        var (c, ok) := s.connection.value.Execute(Rollback, io);
        if !ok then (s.(connection := Some(c)), Err(TransactionError))
        else (s.(connection := Some(c), owner := None, closed := s.closed + {id}), Ok(()))
      else (s.(owner := if s.owner == Some(id) then None else s.owner, closed := s.closed + {id}), Ok(()))
    case DropLast(id, io) =>
      if s.owner == Some(id) && s.connection.Some? then
        var (c, ok) := s.connection.value.Execute(Rollback, io);
        (s.(connection := Some(c), owner := None, poisoned := s.poisoned || !ok, held := s.held - {id}), Ok(()))
      else (s.(owner := if s.owner == Some(id) then None else s.owner, held := s.held - {id}), Ok(()))
    case CloseDatabase(io) =>
      if s.owner.Some? then (s, Err(Busy))
      else if s.connection.Some? && !io then (s, Err(Corrupted))
      else (s.(connection := None), Ok(()))
  }

  // Calls are made through handles that are held.
  predicate Callable<D>(s: State<D>, a: Action<D>) {
    match a
    case OpenSession => true
    case Access(id, _, _) => id in s.held
    case CloseSession(id, _) => id in s.held
    case DropLast(id, _) => id in s.held
    case CloseDatabase(_) => true
  }

  // ---- invariants ----

  // An open transaction has an owner, owners are open sessions, and after poisoning nobody owns one.
  ghost predicate Inv<D>(s: State<D>) {
    && (s.connection.Some? && s.connection.value.IsInTransaction() ==> s.owner.Some?)
    && (s.owner.Some? ==> s.connection.Some? && s.owner.value in s.held && s.owner.value !in s.closed && !s.poisoned)
    && s.nextId >= 1 && (forall id :: id in s.held ==> 1 <= id < s.nextId)
  }

  // An owner exactly while a transaction is open.
  ghost predicate Exact<D>(s: State<D>) {
    s.owner.Some? <==> s.connection.Some? && s.connection.value.IsInTransaction()
  }

  lemma FreshInv<D>(d: D)
    ensures Inv(Fresh(d)) && Exact(Fresh(d))
  {
  }

  lemma StepInv<D>(s: State<D>, a: Action<D>)
    requires Inv(s) && Callable(s, a)
    ensures Inv(Step(s, a).0)
  {
  }

  // A step breaks the correspondence between owner and transaction exactly when the owner's close
  // meets a failing rollback: the transaction is gone then, but the session goes on owning it.
  lemma ExactStep<D>(s: State<D>, a: Action<D>)
    requires Inv(s) && Exact(s) && Callable(s, a)
    ensures Exact(Step(s, a).0) <==> !(a.CloseSession? && s.owner == Some(a.id) && !a.io)
  {
  }

  // From a new database: a session begins a transaction and is closed while the storage fails.  The
  // transaction is gone, the session is not closed and goes on owning the database.
  lemma ExactStepExample<D>(d: D)
    ensures var begun := Final(Fresh(d), [OpenSession, Access(1, Begin, true)]);
            var s := Step(begun, CloseSession(1, false)).0;
            && CallableRun(Fresh(d), [OpenSession, Access(1, Begin, true)]) && Callable(begun, CloseSession(1, false))
            && Exact(begun) && !Exact(s)
            && s.owner == Some(1) && s.connection == Some(Connection(d, None, [], true)) && 1 !in s.closed
  {
    var two: seq<Action<D>> := [OpenSession, Access(1, Begin, true)];
    assert two[1..] == [Access(1, Begin, true)] && two[1..][1..] == [];
  }

  // The owner's next access restores it; until then the others are refused.
  lemma ExactRestored<D>(s: State<D>, id: u64, statement: Statement<D>, io: bool)
    requires Inv(s) && s.owner == Some(id)
    ensures Exact(Step(s, Access(id, statement, io)).0)
  {
  }

  // While a session owns a transaction, other sessions and the database's own close change neither
  // the database nor the ownership, and their accesses are refused.
  lemma Isolation<D>(s: State<D>, a: Action<D>)
    requires Inv(s) && s.owner.Some? && Callable(s, a)
    requires !a.OpenSession? ==> a.CloseDatabase? || a.id != s.owner.value
    ensures var s' := Step(s, a).0; s'.connection == s.connection && s'.owner == s.owner && s'.poisoned == s.poisoned
    ensures a.Access? || a.CloseDatabase? ==> Step(s, a).1.Err? && Step(s, a).0 == s
  {
  }

  // After poisoning no statement runs, and poisoning is final.
  lemma PoisonedStep<D>(s: State<D>, a: Action<D>)
    requires Inv(s) && s.poisoned && Callable(s, a)
    ensures Step(s, a).0.poisoned
    ensures a.Access? ==> Step(s, a).0 == s && Step(s, a).1.Err?
    ensures var s' := Step(s, a).0; s'.connection == s.connection || s'.connection.None?
  {
  }

  // Only a drop whose rollback fails poisons.
  lemma PoisonedBy<D>(s: State<D>, a: Action<D>)
    requires Inv(s) && Exact(s) && !s.poisoned && Callable(s, a)
    ensures Step(s, a).0.poisoned <==> a.DropLast? && s.owner == Some(a.id) && !a.io
  {
  }

  // ---- whole runs ----

  ghost predicate CallableRun<D>(s: State<D>, actions: seq<Action<D>>)
    decreases |actions|
  {
    |actions| == 0 || (Callable(s, actions[0]) && CallableRun(Step(s, actions[0]).0, actions[1..]))
  }

  function Final<D>(s: State<D>, actions: seq<Action<D>>): State<D>
    decreases |actions|
  {
    if |actions| == 0 then s else Final(Step(s, actions[0]).0, actions[1..])
  }

  // Once a session's close, or that of the database, was answered with Ok, every later access of that
  // session, or of any, is refused and changes nothing.
  lemma CloseIsFinal<D>(s: State<D>, close: Action<D>, actions: seq<Action<D>>, a: Action<D>)
    requires (close.CloseSession? && a.Access? && a.id == close.id) || (close.CloseDatabase? && (a.Access? || a.OpenSession?))
    requires Step(s, close).1.Ok?
    ensures var t := Final(Step(s, close).0, actions); Step(t, a) == (t, Err(TransactionError))
  {
    ClosedStays(Step(s, close).0, if a.Access? then a.id else 0, actions);
  }

  lemma {:induction false} ClosedStays<D>(s: State<D>, id: u64, actions: seq<Action<D>>)
    ensures id in s.closed ==> id in Final(s, actions).closed
    ensures s.connection.None? ==> Final(s, actions).connection.None?
    decreases |actions|
  {
    if |actions| > 0 {
      ClosedStays(Step(s, actions[0]).0, id, actions[1..]);
    }
  }

  // Unless a close meets a failing rollback, a session owns the database after every interleaving
  // exactly while a transaction is open.
  lemma {:induction false} ExactRun<D>(s: State<D>, actions: seq<Action<D>>)
    requires Inv(s) && Exact(s) && CallableRun(s, actions)
    requires forall i :: 0 <= i < |actions| && actions[i].CloseSession? ==> actions[i].io
    ensures Inv(Final(s, actions)) && Exact(Final(s, actions))
    decreases |actions|
  {
    if |actions| > 0 {
      StepInv(s, actions[0]);
      ExactStep(s, actions[0]);
      ExactRun(Step(s, actions[0]).0, actions[1..]);
    }
  }

  // Whatever the others do while a session owns a transaction and does nothing itself, database and
  // ownership stay as they are.
  lemma {:induction false} IsolationRun<D>(s: State<D>, actions: seq<Action<D>>)
    requires Inv(s) && s.owner.Some? && CallableRun(s, actions)
    requires forall i :: 0 <= i < |actions| ==>
      actions[i].OpenSession? || actions[i].CloseDatabase? || actions[i].id != s.owner.value
    ensures var s' := Final(s, actions); s'.connection == s.connection && s'.owner == s.owner && s'.poisoned == s.poisoned
    decreases |actions|
  {
    if |actions| > 0 {
      StepInv(s, actions[0]);
      Isolation(s, actions[0]);
      IsolationRun(Step(s, actions[0]).0, actions[1..]);
    }
  }

  // What a client can tell from calls and results: the work committed, one transaction after
  // another, the work of the transaction that is open, and how much of it was done at each savepoint.
  datatype History<!D> =
    History(committed: seq<Work<D>>, open: Option<u64>, pending: seq<Work<D>>, marks: seq<(string, nat)>)

  function Closing<D>(h: History<D>, id: u64): History<D> {
    if h.open == Some(id) then History(h.committed, None, [], []) else h
  }

  function FirstOf<T>(s: seq<T>, n: nat): seq<T> {
    if n <= |s| then s[..n] else s
  }

  // Work done since the savepoint is forgotten; if the storage failed, since the newest savepoint.
  function Undone<D>(h: History<D>, name: string, ok: bool): History<D> {
    var p := Position(h.marks, name);
    var last := |h.marks| - 1;
    if p.None? then h
    else if ok then
      var n := h.marks[p.value].1;
      h.(pending := FirstOf(h.pending, n), marks := h.marks[..p.value] + [(name, n)])
    else h.(pending := FirstOf(h.pending, h.marks[last].1), marks := h.marks[..last])
  }

  function Released<D>(h: History<D>, name: string): History<D> {
    var p := Position(h.marks, name);
    if p.None? then h else h.(marks := h.marks[..p.value])
  }

  function Recorded<D>(h: History<D>, a: Action<D>, ok: bool): History<D> {
    match a
    case OpenSession => h
    case CloseDatabase(_) => h
    case CloseSession(id, _) => Closing(h, id)
    case DropLast(id, _) => Closing(h, id)
    case Access(id, statement, _) =>
      match statement
      case Begin => if ok then History(h.committed, Some(id), [], []) else h
      case Commit => if ok then History(h.committed + h.pending, None, [], []) else h
      case Rollback => Closing(h, id)
      case Savepoint(name) =>
        if !ok then h
        else if h.open == Some(id) then h.(marks := h.marks + [(name, |h.pending|)])
        else History(h.committed, Some(id), [], [(name, 0)])
      case RollbackTo(name) => if h.open == Some(id) then Undone(h, name, ok) else h
      case Release(name) => if h.open == Some(id) then Released(h, name) else h
      case Run(work) =>
        if !ok then h
        else if h.open == Some(id) then h.(pending := h.pending + [work])
        else h.(committed := h.committed + [work])
  }

  function Told<D>(s: State<D>, h: History<D>, actions: seq<Action<D>>): History<D>
    decreases |actions|
  {
    if |actions| == 0 then h
    else
      var (s', r) := Step(s, actions[0]);
      Told(s', Recorded(h, actions[0], r.Ok?), actions[1..])
  }

  // Work applied one after the other to a database nobody else uses.
  function Applied<D>(d: D, works: seq<Work<D>>): D
    decreases |works|
  {
    if |works| == 0 then d
    else
      var before := Applied(d, works[..|works| - 1]);
      match works[|works| - 1](before) case Some(d') => d' case None => before
  }

  lemma AppliedOneMore<D>(d: D, works: seq<Work<D>>, work: Work<D>)
    ensures Applied(d, works + [work])
         == match work(Applied(d, works)) case Some(d') => d' case None => Applied(d, works)
  {
    assert (works + [work])[..|works|] == works;
  }

  // Every savepoint holds the database as it was after the work done by then.
  ghost predicate Marked<D>(saved: seq<(string, D)>, h: History<D>, d: D) {
    && |saved| == |h.marks|
    && (forall i :: 0 <= i < |saved| ==>
          && h.marks[i].0 == saved[i].0 && h.marks[i].1 <= |h.pending|
          && saved[i].1 == Applied(d, h.committed + h.pending[..h.marks[i].1]))
    && (forall i, j :: 0 <= i < j < |h.marks| ==> h.marks[i].1 <= h.marks[j].1)
  }

  // The database is what the history says.
  ghost predicate Agrees<D>(s: State<D>, h: History<D>, d: D) {
    && (h.open.None? ==> |h.pending| == |h.marks| == 0)
    && (s.connection.Some? ==>
          var c := s.connection.value;
          && c.committed == Applied(d, h.committed)
          && (c.working.Some? <==> h.open.Some?)
          && (c.working.Some? ==> !c.broken)
          && (h.open.Some? ==> c.working == Some(Applied(d, h.committed + h.pending)) && s.owner == h.open)
          && Marked(c.saved, h, d))
    && (s.connection.None? ==> h.open.None?)
  }

  // Cutting the work back to savepoint p, and dropping the savepoints behind the first n <= p + 1.
  lemma CutBack<D>(saved: seq<(string, D)>, h: History<D>, d: D, p: nat, n: nat)
    requires Marked(saved, h, d) && p < |saved| && n <= p + 1
    ensures h.marks[p].1 <= |h.pending|
    ensures var h' := h.(pending := h.pending[..h.marks[p].1], marks := h.marks[..n]);
            saved[p].1 == Applied(d, h'.committed + h'.pending) && Marked(saved[..n], h', d)
  {
    hide Applied;
    var cut := h.pending[..h.marks[p].1];
    forall i | 0 <= i < n ensures h.marks[i].1 <= |cut| && cut[..h.marks[i].1] == h.pending[..h.marks[i].1] {
      assert i < p ==> h.marks[i].1 <= h.marks[p].1;
    }
  }

  // A new savepoint.
  lemma MarkHere<D>(saved: seq<(string, D)>, h: History<D>, d: D, name: string)
    requires Marked(saved, h, d)
    ensures Marked(saved + [(name, Applied(d, h.committed + h.pending))], h.(marks := h.marks + [(name, |h.pending|)]), d)
  {
    hide Applied;
    assert h.pending[..|h.pending|] == h.pending;
  }

  lemma {:induction false} SamePosition<A, B>(saved: seq<(string, A)>, marks: seq<(string, B)>, name: string)
    requires |saved| == |marks| && forall i :: 0 <= i < |saved| ==> marks[i].0 == saved[i].0
    ensures Position(saved, name) == Position(marks, name)
  {
    if |saved| > 0 {
      SamePosition(saved[..|saved| - 1], marks[..|marks| - 1], name);
    }
  }

  // More work leaves what the savepoints hold alone.
  lemma MarkedOnward<D>(saved: seq<(string, D)>, h: History<D>, d: D, work: Work<D>)
    requires Marked(saved, h, d)
    ensures Marked(saved, h.(pending := h.pending + [work]), d)
  {
    hide Applied;
    forall i | 0 <= i < |saved|
      ensures (h.pending + [work])[..h.marks[i].1] == h.pending[..h.marks[i].1]
    {
    }
  }

  lemma RollbackToAgrees<D>(c: Connection<D>, h: History<D>, d: D, name: string, io: bool)
    requires c.working == Some(Applied(d, h.committed + h.pending)) && Marked(c.saved, h, d)
    ensures var (c', ok) := c.Execute(RollbackTo(name), io); var h' := Undone(h, name, ok);
            && c'.working == Some(Applied(d, h'.committed + h'.pending)) && Marked(c'.saved, h', d)
            && c'.committed == c.committed && c'.broken == c.broken && h'.committed == h.committed && h'.open == h.open
  {
    hide Applied, Marked, Position;
    MarkedNames(c.saved, h, d);
    SamePosition(c.saved, h.marks, name);
    var p := Position(c.saved, name);
    if p.Some? {
      if io {
        CutBack(c.saved, h, d, p.value, p.value);
        var h' := h.(pending := h.pending[..h.marks[p.value].1], marks := h.marks[..p.value]);
        MarkHere(c.saved[..p.value], h', d, name);
      } else {
        CutBack(c.saved, h, d, |c.saved| - 1, |c.saved| - 1);
      }
    }
  }

  lemma ReleaseAgrees<D>(saved: seq<(string, D)>, h: History<D>, d: D, name: string)
    requires Marked(saved, h, d)
    ensures var p := Position(saved, name);
            Marked(if p.None? then saved else saved[..p.value], Released(h, name), d)
    ensures Released(h, name).(marks := h.marks) == h
  {
    hide Applied, Position;
    SamePosition(saved, h.marks, name);
  }

  lemma MarkedNames<D>(saved: seq<(string, D)>, h: History<D>, d: D)
    requires Marked(saved, h, d)
    ensures |saved| == |h.marks| && forall i :: 0 <= i < |saved| ==> h.marks[i].0 == saved[i].0
  {
    hide Applied;
  }

  lemma NothingNamed<T>(named: seq<(string, T)>, name: string)
    requires |named| == 0
    ensures Position(named, name) == None
  {
  }

  lemma StatementAgrees<D>(s: State<D>, h: History<D>, d: D, id: u64, statement: Statement<D>, io: bool)
    requires Inv(s) && Agrees(s, h, d) && Admit(s, id).Ok?
    ensures var (s', r) := Accessed(s, id, statement, io); Agrees(s', Recorded(h, Access(id, statement, io), r.Ok?), d)
  {
    hide Applied, Marked, Position, Undone, Released;
    var c := s.connection.value;
    NothingMarked(c.saved, h, d);
    NothingNamed<D>([], if statement.RollbackTo? || statement.Release? then statement.name else "");
    match statement
    case Begin => assert h.committed + [] == h.committed;
    case Commit =>
    case Rollback =>
    case Savepoint(name) =>
      if c.working.Some? {
        MarkHere(c.saved, h, d, name);
      } else {
        FirstMark(h.committed, d, id, name);
      }
    case RollbackTo(name) =>
      if c.working.Some? {
        RollbackToAgrees(c, h, d, name, io);
      }
    case Release(name) => ReleaseAgrees(c.saved, h, d, name);
    case Run(work) =>
      AppliedOneMore(d, h.committed, work);
      AppliedOneMore(d, h.committed + h.pending, work);
      MarkedOnward(c.saved, h, d, work);
      assert h.committed + (h.pending + [work]) == h.committed + h.pending + [work];
  }

  // SAVEPOINT outside a transaction.
  lemma FirstMark<D>(committed: seq<Work<D>>, d: D, id: u64, name: string)
    ensures committed + [] == committed
    ensures Marked([(name, Applied(d, committed))], History(committed, Some(id), [], [(name, 0)]), d)
  {
    hide Applied;
    assert committed + [] == committed;
  }

  // Without a transaction there are no savepoints.
  lemma NothingMarked<D>(saved: seq<(string, D)>, h: History<D>, d: D)
    requires Marked(saved, h, d)
    ensures |saved| == |h.marks| && (|saved| == 0 ==> saved == [])
    ensures forall c: History<D> :: |c.marks| == 0 ==> Marked([], c, d)
  {
  }

  lemma StepAgrees<D>(s: State<D>, h: History<D>, d: D, a: Action<D>)
    requires Inv(s) && Agrees(s, h, d) && Callable(s, a)
    ensures Agrees(Step(s, a).0, Recorded(h, a, Step(s, a).1.Ok?), d)
  {
    hide Applied;
    if a.Access? && Admit(s, a.id).Ok? {
      hide Agrees, Inv, Accessed, Recorded;
      StatementAgrees(s, h, d, a.id, a.statement, a.io);
    }
  }

  // After every interleaving, failures of the storage included, the committed database is the
  // committed work applied in commit order, and an open transaction sees that and its own work
  // only: rolled-back, closed and dropped transactions leave no trace.
  lemma {:induction false} RunSerial<D>(s: State<D>, h: History<D>, d: D, actions: seq<Action<D>>)
    requires Inv(s) && Agrees(s, h, d) && CallableRun(s, actions)
    ensures Inv(Final(s, actions)) && Agrees(Final(s, actions), Told(s, h, actions), d)
    decreases |actions|
  {
    if |actions| > 0 {
      StepInv(s, actions[0]);
      StepAgrees(s, h, d, actions[0]);
      RunSerial(Step(s, actions[0]).0, Recorded(h, actions[0], Step(s, actions[0]).1.Ok?), d, actions[1..]);
    }
  }

  lemma RunFromFresh<D>(d: D, actions: seq<Action<D>>)
    requires CallableRun(Fresh(d), actions)
    ensures var s := Final(Fresh(d), actions);
            Inv(s) && Agrees(s, Told(Fresh(d), History([], None, [], []), actions), d)
  {
    FreshInv(d);
    RunSerial(Fresh(d), History([], None, [], []), d, actions);
  }

  // ---- the shared state as the sessions change it, under its lock ----

  class SessionDatabase<!D> {
    var connection: Option<Connection<D>>
    var owner: Option<u64>
    var nextId: u64
    var poisoned: bool
    var closed: set<u64>
    var held: set<u64>

    ghost function Contents(): State<D>
      reads this
    {
      State(connection, owner, nextId, poisoned, closed, held)
    }

    constructor (d: D)
      ensures Contents() == Fresh(d)
    {
      connection, owner, nextId, poisoned, closed, held := Some(Connection(d, None, [], false)), None, 1, false, {}, {};
    }

    method OpenSession() returns (r: Result<u64>)
      modifies this
      ensures var (s, done) := Step(old(Contents()), Action.OpenSession);
              Contents() == s && (r.Ok? <==> done.Ok?) && (r.Err? ==> done == Err(r.error))
      ensures r.Ok? ==> r.value == old(nextId)
    {
      if connection.None? {
        return Err(TransactionError);
      }
      var id := nextId;
      if id == LAST_ID {
        return Err(ConstraintViolation);
      }
      nextId := id + 1;
      held := held + {id};
      return Ok(id);
    }

    // One pass through access: the waits before it change nothing.
    method Access(id: u64, statement: Statement<D>, io: bool) returns (r: Result<()>)
      modifies this
      ensures (Contents(), r) == Step(old(Contents()), Action.Access(id, statement, io))
    {
      if id in closed {
        return Err(TransactionError);
      }
      if poisoned {
        return Err(TransactionError);
      }
      if connection.None? {
        return Err(TransactionError);
      }
      if owner.Some? && owner.value != id {
        return Err(Busy);
      }
      var (c, ok) := connection.value.Execute(statement, io);
      connection := Some(c);
      owner := if c.IsInTransaction() then Some(id) else None;
      return if ok then Ok(()) else Err(ConstraintViolation);
    }

    method CloseSession(id: u64, io: bool) returns (r: Result<()>)
      modifies this
      ensures (Contents(), r) == Step(old(Contents()), Action.CloseSession(id, io))
    {
      if id in closed {
        return Ok(());
      }
      if owner == Some(id) {
        if connection.Some? {
          var (c, ok) := connection.value.Execute(Rollback, io);
          connection := Some(c);
          if !ok {
            return Err(TransactionError);
          }
        }
        owner := None;
      }
      closed := closed + {id};
      return Ok(());
    }

    method DropLast(id: u64, io: bool)
      modifies this
      ensures Contents() == Step(old(Contents()), Action.DropLast(id, io)).0
    {
      if owner == Some(id) {
        if connection.Some? {
          var (c, ok) := connection.value.Execute(Rollback, io);
          connection := Some(c);
          if !ok {
            poisoned := true;
          }
        }
        owner := None;
      }
      held := held - {id};
    }

    method Close(io: bool) returns (r: Result<()>)
      modifies this
      ensures (Contents(), r) == Step(old(Contents()), CloseDatabase(io))
    {
      if owner.Some? {
        return Err(Busy);
      }
      if connection.Some? && !io {
        return Err(Corrupted);
      }
      connection := None;
      return Ok(());
    }

    // The callback's statements one after the other: what it does next depends on the results so far.
    method RunCallback(id: u64, next: seq<Result<()>> -> Option<Statement<D>>, most: nat, io: nat -> bool)
      returns (results: seq<Result<()>>, ghost body: seq<Action<D>>)
      requires Inv(Contents()) && Exact(Contents()) && id in held
      modifies this
      ensures Inv(Contents()) && Exact(Contents()) && held == old(held)
      ensures Contents() == Final(old(Contents()), body) && CallableRun(old(Contents()), body) && CallsOf(body, id)
      ensures results == Results(old(Contents()), body) && Played(old(Contents()), id, next, most, io, body)
    {
      hide Inv, Exact, Step, Results;
      results, body := [], [];
      NoCalls(old(Contents()));
      for i := 0 to most
        invariant Inv(Contents()) && Exact(Contents()) && held == old(held)
        invariant Contents() == Final(old(Contents()), body) && CallableRun(old(Contents()), body) && CallsOf(body, id)
        invariant results == Results(old(Contents()), body) && |results| == |body| == i
        invariant forall k :: 0 <= k < i ==> Asked(id, next(results[..k]), io(k + 1)) == Some(body[k])
      {
        var statement := next(results);
        if statement.None? {
          break;
        }
        ghost var a := Action.Access(id, statement.value, io(i + 1));
        StepInv(Contents(), a);
        ExactStep(Contents(), a);
        OneMoreCall(old(Contents()), body, a);
        HeldStays(Contents(), a);
        var r := Access(id, statement.value, io(i + 1));
        forall k | 0 <= k < i ensures (results + [r])[..k] == results[..k] {
        }
        assert (results + [r])[..i] == results;
        results, body := results + [r], body + [a];
      }
    }

    // Begin, the callback, then commit or roll back as it asks; the guard rolls back when that fails.
    // The callback may issue any statements, and what the storage does is left open.  As long as the
    // transaction stays open under the callback, all its work is committed or none.
    method Transaction(id: u64, next: seq<Result<()>> -> Option<Statement<D>>, most: nat,
                       accept: seq<Result<()>> -> bool, io: nat -> bool)
      returns (r: Result<()>, ghost body: seq<Action<D>>)
      requires Inv(Contents()) && Exact(Contents()) && id in held
      modifies this
      ensures Inv(Contents()) && Exact(Contents()) && (old(owner).None? ==> owner.None?)
      ensures var begun := Step(old(Contents()), Action.Access(id, Begin, io(0))).0;
              && (r.Ok? <==>
                    && CanBegin(old(Contents()), id) && io(0) && InTransaction(Final(begun, body))
                    && accept(Results(begun, body)) && io(most + 1))
              && (if CanBegin(old(Contents()), id) && io(0) then
                    && Played(begun, id, next, most, io, body) && CallsOf(body, id) && CallableRun(begun, body)
                    && Contents() == Ended(Final(begun, body), accept(Results(begun, body)), io(most + 1), io(most + 2))
                  else Contents() == old(Contents()) && r == Step(old(Contents()), Action.Access(id, Begin, io(0))).1)
              && (CanBegin(old(Contents()), id) && io(0) && StaysOpen(begun, body) ==>
                    var d := old(connection).value.committed;
                    && connection.Some?
                    && connection.value.committed == if r.Ok? then Applied(d, WorkDone(begun, id, body)) else d)
    {
      hide Applied, Inv, Exact, Told, CallableRun, Final, StaysOpen, CallsOf, Played, Results;
      body := [];
      ghost var s0 := Contents();
      ghost var begin := Action.Access(id, Begin, io(0));
      StepInv(s0, begin);
      ExactStep(s0, begin);
      BeginResult(s0, id, io(0));
      r := Access(id, Begin, io(0));
      if r.Err? {
        return;
      }
      ghost var begun := Contents();
      var results;
      results, body := RunCallback(id, next, most, io);
      OwnerOnly(begun, body, id);
      if StaysOpen(begun, body) {
        OpenWork(begun, s0.connection.value.committed, id, body);
      }
      r := Finish(id, accept(results), io(most + 1), io(most + 2));
    }

    // Commit or roll back; the guard rolls back again when that fails.
    method Finish(id: u64, accepted: bool, io: bool, ioAgain: bool) returns (r: Result<()>)
      requires Inv(Contents()) && Exact(Contents()) && id in held && Admit(Contents(), id).Ok?
      modifies this
      ensures Inv(Contents()) && Exact(Contents())
      ensures r.Ok? <==> accepted && io && InTransaction(old(Contents()))
      ensures Contents() == Ended(old(Contents()), accepted, io, ioAgain)
    {
      if accepted {
        r := Access(id, Commit, io);
        if r.Err? {
          var dropped := Access(id, Rollback, ioAgain);
        }
        return;
      }
      r := Access(id, Rollback, io);
      if r.Err? {
        var dropped := Access(id, Rollback, ioAgain);
      }
      r := Err(TransactionError);
    }
  }

  // A transaction can begin: the session is let in, none is open, and the storage is not to be reopened.
  predicate CanBegin<D>(s: State<D>, id: u64) {
    id !in s.closed && !s.poisoned && s.connection.Some? && s.owner.None? && !s.connection.value.broken
  }

  predicate InTransaction<D>(s: State<D>) {
    s.connection.Some? && s.connection.value.IsInTransaction()
  }

  // The end of a callback.  Its transaction, if it is still open, is over whatever happens: committed if
  // that is asked for and works; storage whose last rollback failed has to be opened anew.
  function Ended<D>(s: State<D>, accepted: bool, io: bool, ioAgain: bool): State<D> {
    if !InTransaction(s) then s
    else
      var c := s.connection.value;
      var rolledBack := if accepted then ioAgain else io;
      var c' := if accepted && io then Connection(c.working.value, None, [], false)
                else Connection(c.committed, None, [], !rolledBack);
      s.(connection := Some(c'), owner := None)
  }

  // What the calls answer.
  function Results<D>(s: State<D>, actions: seq<Action<D>>): (r: seq<Result<()>>)
    ensures |r| == |actions|
    decreases |actions|
  {
    if |actions| == 0 then [] else [Step(s, actions[0]).1] + Results(Step(s, actions[0]).0, actions[1..])
  }

  // The call the callback asks for.
  function Asked<D>(id: u64, statement: Option<Statement<D>>, io: bool): Option<Action<D>> {
    if statement.Some? then Some(Action.Access(id, statement.value, io)) else None
  }

  // The calls are those the callback asks for, until it returns or has made the most calls it can.
  ghost predicate Played<D>(s: State<D>, id: u64, next: seq<Result<()>> -> Option<Statement<D>>, most: nat,
                            io: nat -> bool, actions: seq<Action<D>>)
  {
    var results := Results(s, actions);
    && |actions| <= most && (|actions| < most ==> next(results) == None)
    && forall k :: 0 <= k < |actions| ==> Asked(id, next(results[..k]), io(k + 1)) == Some(actions[k])
  }

  lemma NoCalls<D>(s: State<D>)
    ensures Results<D>(s, []) == []
  {
  }

  ghost predicate CallsOf<D>(actions: seq<Action<D>>, id: u64) {
    forall a :: a in actions ==> a.Access? && a.id == id
  }

  // A transaction is open after every one of these calls.
  ghost predicate StaysOpen<D>(s: State<D>, actions: seq<Action<D>>) {
    forall k :: 0 <= k <= |actions| ==>
      var t := Final(s, actions[..k]); t.connection.Some? && t.connection.value.IsInTransaction()
  }

  // The work of a transaction that has begun at s, without what it has rolled back to a savepoint.
  ghost function WorkDone<D>(s: State<D>, id: u64, actions: seq<Action<D>>): seq<Work<D>> {
    Told(s, History([], Some(id), [], []), actions).pending
  }

  lemma {:induction false} OneMoreCall<D>(s: State<D>, actions: seq<Action<D>>, a: Action<D>)
    ensures Final(s, actions + [a]) == Step(Final(s, actions), a).0
    ensures CallableRun(s, actions) && Callable(Final(s, actions), a) ==> CallableRun(s, actions + [a])
    ensures Results(s, actions + [a]) == Results(s, actions) + [Step(Final(s, actions), a).1]
    decreases |actions|
  {
    hide Step, Callable;
    if |actions| == 0 {
      assert ([] + [a])[0] == a && ([] + [a])[1..] == [];
      assert actions + [a] == [] + [a];
    } else {
      assert (actions + [a])[1..] == actions[1..] + [a];
      OneMoreCall(Step(s, actions[0]).0, actions[1..], a);
    }
  }

  lemma HeldStays<D>(s: State<D>, a: Action<D>)
    requires a.Access?
    ensures Step(s, a).0.held == s.held
  {
  }

  // BEGIN opens a transaction over the committed database, or changes nothing.
  lemma BeginResult<D>(s: State<D>, id: u64, io: bool)
    requires Inv(s) && Exact(s) && id in s.held
    ensures var (s', r) := Step(s, Access(id, Begin, io));
            if r.Err? then s' == s && (s.owner.None? ==> !StaysOpen(s, []))
            else
              && s.connection.Some? && s.owner.None? && s'.owner == Some(id) && s'.held == s.held && Admit(s', id).Ok?
              && s'.connection == Some(Connection(s.connection.value.committed, Some(s.connection.value.committed), [], false))
    ensures CallableRun(s, []) && CallsOf<D>([], id)
  {
    var (s', r) := Step(s, Access(id, Begin, io));
    if r.Err? && s.owner.None? {
      var none: seq<Action<D>> := [];
      assert none[..0] == [] && Final(s', none[..0]) == s';
    }
  }

  // A session that has been let in is let in again as long as nobody else does anything.
  lemma {:induction false} OwnerOnly<D>(s: State<D>, actions: seq<Action<D>>, id: u64)
    requires CallsOf(actions, id) && Admit(s, id).Ok?
    ensures Admit(Final(s, actions), id).Ok?
    decreases |actions|
  {
    if |actions| > 0 {
      assert actions[0] in actions && forall a :: a in actions[1..] ==> a in actions;
      OwnerOnly(Step(s, actions[0]).0, actions[1..], id);
    }
  }

  // While its transaction stays open a session commits nothing, and its database is the committed one
  // with the work done since.
  lemma OpenWork<D>(s: State<D>, d: D, id: u64, actions: seq<Action<D>>)
    requires Inv(s) && s.owner == Some(id) && s.connection == Some(Connection(d, Some(d), [], false))
    requires CallsOf(actions, id) && CallableRun(s, actions) && StaysOpen(s, actions)
    ensures var t := Final(s, actions);
            && t.connection.Some? && t.connection.value.committed == d
            && t.connection.value.working == Some(Applied(d, WorkDone(s, id, actions)))
  {
    hide Inv, CallableRun, CallsOf, Final, Told;
    var h := History([], Some(id), [], []);
    assert h.committed + h.pending == [];
    RunSerial(s, h, d, actions);
    ToldOpen(s, h, d, id, actions);
    var t := Told(s, h, actions);
    assert [] + t.pending == t.pending;
    assert actions[..|actions|] == actions;
  }

  // A callback that commits itself and then asks to roll back: its work stays, though the rollback is
  // answered with an error.
  lemma CommitInside<D>(d: D, work: Work<D>)
    requires work(d).Some?
    ensures var begun := Step(Step(Fresh(d), OpenSession).0, Access(1, Begin, true)).0;
            var body := [Access(1, Run(work), true), Access(1, Commit, true)];
            && !StaysOpen(begun, body)
            && Step(Final(begun, body), Access(1, Rollback, true)).1.Err?
            && Step(Final(begun, body), Access(1, Rollback, true)).0.connection == Some(Connection(work(d).value, None, [], false))
  {
    var begun := Step(Step(Fresh(d), OpenSession).0, Access(1, Begin, true)).0;
    var body: seq<Action<D>> := [Access(1, Run(work), true), Access(1, Commit, true)];
    var s1 := Step(begun, body[0]).0;
    OneMoreCall(begun, [], body[0]);
    OneMoreCall(begun, [body[0]], body[1]);
    assert [] + [body[0]] == [body[0]] && [body[0]] + [body[1]] == body[..2] == body;
  }

  lemma {:induction false} ToldOpen<D>(s: State<D>, h: History<D>, d: D, id: u64, actions: seq<Action<D>>)
    requires Inv(s) && Agrees(s, h, d) && h.open == Some(id)
    requires CallsOf(actions, id) && CallableRun(s, actions) && StaysOpen(s, actions)
    ensures var t := Told(s, h, actions); t.open == Some(id) && t.committed == h.committed
    decreases |actions|
  {
    hide Inv, Agrees, Step, Recorded, Callable;
    if |actions| > 0 {
      var a, s' := actions[0], Step(s, actions[0]).0;
      var h' := Recorded(h, a, Step(s, a).1.Ok?);
      assert a in actions && forall b :: b in actions[1..] ==> b in actions;
      StepInv(s, a);
      StepAgrees(s, h, d, a);
      assert Final(s, actions[..1]) == s' by {
        assert actions[..1][0] == a && actions[..1][1..] == [];
      }
      StaysOpenOnward(s, actions);
      StillOpen(s', h, h', d, id, a, Step(s, a).1.Ok?);
      ToldOpen(s', h', d, id, actions[1..]);
    }
  }

  lemma StaysOpenOnward<D>(s: State<D>, actions: seq<Action<D>>)
    requires |actions| > 0 && StaysOpen(s, actions)
    ensures StaysOpen(Step(s, actions[0]).0, actions[1..])
  {
    hide Step;
    forall k | 0 <= k <= |actions[1..]|
      ensures var t := Final(Step(s, actions[0]).0, actions[1..][..k]);
              t.connection.Some? && t.connection.value.IsInTransaction()
    {
      assert actions[..k + 1][0] == actions[0] && actions[..k + 1][1..] == actions[1..][..k];
      assert Final(s, actions[..k + 1]) == Final(Step(s, actions[0]).0, actions[1..][..k]);
    }
  }

  lemma StillOpen<D>(s: State<D>, h: History<D>, h': History<D>, d: D, id: u64, a: Action<D>, ok: bool)
    requires a.Access? && a.id == id && h.open == Some(id) && h' == Recorded(h, a, ok) && Agrees(s, h', d)
    requires s.connection.Some? && s.connection.value.IsInTransaction()
    ensures h'.open == Some(id) && h'.committed == h.committed
  {
    hide Applied, Marked;
  }
}
