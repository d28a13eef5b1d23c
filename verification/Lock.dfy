/** The lock file of csync_lock.c, as processes that take one step at a time. */
module Locks {
  import opened Options
  import opened Decimals

  // ---------- what is written to the lock file, and read back ----------

  /** What a process writes: its pid and a newline. */
  function Text(pid: nat): string { Decimal(pid) + "\n" }

  /** A read takes eight bytes, and the last is overwritten by the end of the string. */
  function Buffered(text: string): string { if |text| <= 7 then text else text[..7] }

  /** strtol() in base ten; what is read is never signed. */
  function Strtol(s: string): nat { Number(s, 10, 0) }

  /** Reading back a pid gives that pid if it has up to seven digits. */
  lemma ReadBack(pid: nat)
    requires pid < 10_000_000
    ensures Strtol(Buffered(Text(pid))) == pid
  {
    assert Power10(7) == 10_000_000 by { assert Power10(4) == 10_000; }
    DecimalIsShort(pid, 10_000_000, 7);
    NumberOfNumeral(pid, 10);
    if |Decimal(pid)| == 7 {
      assert Buffered(Text(pid)) == Decimal(pid);
    } else {
      NumberJoins(Decimal(pid), "\n", 10, 0);
    }
  }

  // ---------- the steps ----------

  datatype Why = Locking | Removing

  /** Where a process stands between two steps. */
  datatype Pc =
    | Idle
    | Opened(ino: nat, why: Why)  // has the lock file open
    | Got(text: string, why: Why)  // has read it
    | Breaking(why: Why)  // is about to unlink a broken or stale lock
    | Unlinking  // is about to unlink its own lock
    | Creating
    | Writing(ino: nat)  // writes its temporary file, and then links it
    | Dead

  datatype Inode = Inode(owner: nat, text: string)

  /** `lock` is the inode that the lock file names; `holds` are the processes that were told they have the lock. */
  datatype State = State(procs: map<nat, Pc>, lock: Option<nat>, inodes: seq<Inode>, holds: set<nat>) {
    function Alive(pid: nat): bool { pid in procs && procs[pid] != Dead }
    function At(pid: nat, pc: Pc): State { this.(procs := procs[pid := pc]) }
  }

  datatype Action =
    | Call(pid: nat, why: Why)  // csync_lock() or csync_lock_remove() opens the lock file
    | Go(pid: nat, ok: bool)  // the next step; `ok` tells whether a file operation that may fail works
    | Die(pid: nat)

  /** _csync_lock_read() has returned -1. */
  function NotLocked(why: Why): Pc { if why == Locking then Creating else Idle }

  function GoOn(s: State, p: nat, ok: bool): State
    requires p in s.procs
  {
    match s.procs[p]
    case Opened(i, why) =>
      var text := if i < |s.inodes| then Buffered(s.inodes[i].text) else "";
      s.At(p, if text == "" then NotLocked(why) else Got(text, why))
    case Got(text, why) =>
      var pid := Strtol(text);
      if pid == 0 || pid > 0xFFFF || !s.Alive(pid) then s.At(p, Breaking(why))
      else if why == Removing && pid == p then s.At(p, Unlinking)
      else s.At(p, Idle)
    case Breaking(why) => s.At(p, NotLocked(why)).(lock := None)
    case Unlinking => s.At(p, Idle).(lock := None, holds := s.holds - {p})
    case Creating =>
      if ok then s.At(p, Writing(|s.inodes|)).(inodes := s.inodes + [Inode(p, "")]) else s.At(p, Idle)
    case Writing(i) =>
      if i >= |s.inodes| || !ok then s.At(p, Idle)
      else if |s.inodes[i].text| < |Text(p)| then
        s.(inodes := s.inodes[i := s.inodes[i].(text := s.inodes[i].text + [Text(p)[|s.inodes[i].text|]])])
      else if s.lock == None then s.At(p, Idle).(lock := Some(i), holds := s.holds + {p})
      else s.At(p, Idle)
    case _ => s
  }

  /** Actions of a process that cannot take them change nothing. */
  function Next(s: State, a: Action): State {
    if !s.Alive(a.pid) then s else
    match a
    case Call(p, why) =>
      if s.procs[p] != Idle then s
      else if s.lock == None then s.At(p, NotLocked(why))
      else s.At(p, Opened(s.lock.value, why))
    case Go(p, ok) => GoOn(s, p, ok)
    case Die(p) => s.At(p, Dead).(holds := s.holds - {p})
  }

  function Run(s: State, actions: seq<Action>): State
    decreases |actions|
  {
    if actions == [] then s else Run(Next(s, actions[0]), actions[1..])
  }

  function Start(pids: set<nat>): State { State(map p | p in pids :: Idle, None, [], {}) }

  /** At most one process has the lock. */
  predicate Exclusive(s: State) { forall p, q | p in s.holds && q in s.holds :: p == q }

  predicate SmallPids(pids: set<nat>) { forall p | p in pids :: 1 <= p <= 0xFFFF }

  // ---------- while nobody dies ----------

  /** A file that is or was the lock: its owner has written all of it. */
  ghost predicate Complete(s: State, i: nat) {
    i < |s.inodes| && s.inodes[i].owner in s.procs && s.inodes[i].text == Text(s.inodes[i].owner)
  }

  /** What one process may be doing. */
  ghost predicate Fits(s: State, p: nat) requires p in s.procs {
    match s.procs[p]
    case Idle => true
    case Opened(i, why) => Complete(s, i) && (s.inodes[i].owner == p ==> p in s.holds)
    case Got(text, why) => var q := Strtol(text); q in s.procs && text == Buffered(Text(q)) && (q == p ==> p in s.holds)
    case Breaking(why) => false
    case Unlinking => p in s.holds
    case Creating => p !in s.holds
    case Writing(i) => p !in s.holds && i < |s.inodes| && s.inodes[i].owner == p && s.inodes[i].text <= Text(p)
        && Unseen(s, p, i)
    case Dead => false
  }

  /** Nobody but its writer knows of the inode. */
  ghost predicate Unseen(s: State, p: nat, i: nat) {
    && s.lock != Some(i)
    && forall q | q in s.procs && q != p :: (s.procs[q].Opened? || s.procs[q].Writing?) ==> s.procs[q].ino != i
  }

  ghost predicate Quiet(s: State) {
    && SmallPids(s.procs.Keys)
    && (forall p | p in s.procs :: Fits(s, p))
    && (s.lock.Some? ==> Complete(s, s.lock.value) && s.inodes[s.lock.value].owner in s.holds)
    && (forall p | p in s.holds :: s.lock.Some? && s.lock.value < |s.inodes| && s.inodes[s.lock.value].owner == p)
  }

  lemma QuietCall(s: State, p: nat, why: Why)
    requires Quiet(s) && p in s.procs && s.procs[p] == Idle
    ensures Quiet(Next(s, Call(p, why)))
  {
    var s' := Next(s, Call(p, why));
    forall q | q in s'.procs ensures Fits(s', q) { assert Fits(s, q); }
  }

  lemma QuietRead(s: State, p: nat, ok: bool)
    requires Quiet(s) && p in s.procs && (s.procs[p].Opened? || s.procs[p].Got?)
    ensures Quiet(GoOn(s, p, ok))
  {
    var s' := GoOn(s, p, ok);
    assert Fits(s, p);
    if s.procs[p].Opened? {
      ReadBack(s.inodes[s.procs[p].ino].owner);
    }
    assert Fits(s', p);
    forall q | q in s'.procs ensures Fits(s', q) { assert Fits(s, q); }
  }

  lemma QuietUnlink(s: State, p: nat, ok: bool)
    requires Quiet(s) && p in s.procs && s.procs[p] == Unlinking
    ensures Quiet(GoOn(s, p, ok))
  {
    var s' := GoOn(s, p, ok);
    assert Fits(s, p);
    forall q | q in s'.procs ensures Fits(s', q) { assert Fits(s, q); }
  }

  lemma QuietCreate(s: State, p: nat, ok: bool)
    requires Quiet(s) && p in s.procs && s.procs[p] == Creating
    ensures Quiet(GoOn(s, p, ok))
  {
    var s' := GoOn(s, p, ok);
    assert Fits(s, p);
    forall q | q in s'.procs ensures Fits(s', q) { assert Fits(s, q); }
  }

  lemma QuietWrite(s: State, p: nat, ok: bool)
    requires Quiet(s) && p in s.procs && s.procs[p].Writing?
    ensures Quiet(GoOn(s, p, ok))
  {
    var s' := GoOn(s, p, ok);
    assert Fits(s, p);
    forall q | q in s'.procs ensures Fits(s', q) { assert Fits(s, q); }
  }

  lemma QuietNext(s: State, a: Action)
    requires Quiet(s) && !a.Die?
    ensures Quiet(Next(s, a)) && Next(s, a).procs.Keys == s.procs.Keys
  {
    if s.Alive(a.pid) {
      assert Fits(s, a.pid);
      match a
      case Call(p, why) => if s.procs[p] == Idle { QuietCall(s, p, why); }
      case Go(p, ok) =>
        match s.procs[p]
        case Opened(_, _) => QuietRead(s, p, ok);
        case Got(_, _) => QuietRead(s, p, ok);
        case Unlinking => QuietUnlink(s, p, ok);
        case Creating => QuietCreate(s, p, ok);
        case Writing(_) => QuietWrite(s, p, ok);
        case _ =>
    }
  }

  predicate NoDeaths(actions: seq<Action>) { forall a | a in actions :: !a.Die? }

  lemma {:induction false} QuietRun(s: State, actions: seq<Action>)
    requires Quiet(s) && NoDeaths(actions)
    ensures Quiet(Run(s, actions)) && Run(s, actions).procs.Keys == s.procs.Keys
    decreases |actions|
  {
    if actions != [] {
      assert actions[0] in actions;
      QuietNext(s, actions[0]);
      QuietRun(Next(s, actions[0]), actions[1..]);
    }
  }

  /** While nobody dies, in every interleaving of single steps at most one process has the lock, the lock file names
      the pid of that process, and what anybody has read from it is a whole pid of one of the processes. */
  lemma MutualExclusion(pids: set<nat>, actions: seq<Action>)
    requires SmallPids(pids) && NoDeaths(actions)
    ensures var s := Run(Start(pids), actions);
            && Exclusive(s)
            && (s.holds != {} <==> s.lock.Some?)
            && (forall p | p in s.holds :: s.lock.value < |s.inodes| && s.inodes[s.lock.value].text == Text(p))
            && (forall p | p in s.procs && s.procs[p].Got? ::
                  var q := Strtol(s.procs[p].text); q in pids && s.procs[p].text == Text(q))
  {
    var s := Run(Start(pids), actions);
    QuietRun(Start(pids), actions);
    forall p | p in s.procs && s.procs[p].Got?
      ensures Strtol(s.procs[p].text) in pids && s.procs[p].text == Text(Strtol(s.procs[p].text))
    {
      assert Fits(s, p);
      ShortText(Strtol(s.procs[p].text));
    }
  }

  /** A small pid fits the buffer whole. */
  lemma ShortText(pid: nat)
    requires pid <= 0xFFFF
    ensures Buffered(Text(pid)) == Text(pid)
  {
    assert Power10(5) == 100_000;
    DecimalIsShort(pid, 100_000, 5);
  }

  // ---------- holders that die, when reading is one step ----------

  /** The process is between the steps of _csync_lock_read(). */
  predicate Reading(s: State, p: nat) {
    p in s.procs && (s.procs[p].Opened? || s.procs[p].Got? || s.procs[p].Breaking?)
  }

  function ReadSteps(pc: Pc): nat {
    match pc case Opened(_, _) => 3 case Got(_, _) => 2 case Breaking(_) => 1 case _ => 0
  }

  /** The rest of _csync_lock_read(), without interruption. */
  function ReadThrough(s: State, p: nat): State
    requires p in s.procs
    decreases ReadSteps(s.procs[p])
  {
    if Reading(s, p) then ReadThrough(GoOn(s, p, true), p) else s
  }

  /** As Next, but _csync_lock_read() is one step. */
  function NextAtomic(s: State, a: Action): State {
    if a.Call? && s.Alive(a.pid) then ReadThrough(Next(s, a), a.pid) else Next(s, a)
  }

  function RunAtomic(s: State, actions: seq<Action>): State
    decreases |actions|
  {
    if actions == [] then s else RunAtomic(NextAtomic(s, actions[0]), actions[1..])
  }

  ghost predicate FitsAtomic(s: State, p: nat) requires p in s.procs {
    match s.procs[p]
    case Idle => true
    case Unlinking => p in s.holds
    case Creating => p !in s.holds
    case Writing(i) => p !in s.holds && i < |s.inodes| && s.inodes[i].owner == p && s.inodes[i].text <= Text(p)
        && Unseen(s, p, i)
    case Dead => p !in s.holds
    case _ => false
  }

  /** The owner of the lock has it, or has died. */
  ghost predicate Orderly(s: State) {
    && SmallPids(s.procs.Keys)
    && (forall p | p in s.procs :: FitsAtomic(s, p))
    && (s.lock.Some? ==>
          && Complete(s, s.lock.value)
          && (s.inodes[s.lock.value].owner in s.holds || !s.Alive(s.inodes[s.lock.value].owner)))
    && (forall p | p in s.holds ::
          && p in s.procs && s.lock.Some? && s.lock.value < |s.inodes|
          && s.inodes[s.lock.value].owner == p)
  }

  lemma OrderlyGo(s: State, p: nat, ok: bool)
    requires Orderly(s) && s.Alive(p)
    ensures Orderly(GoOn(s, p, ok))
  {
    var s' := GoOn(s, p, ok);
    assert FitsAtomic(s, p);
    if s.procs[p].Writing? {
      OrderlyWrite(s, p, ok);
    } else {
      forall q | q in s'.procs ensures FitsAtomic(s', q) { assert FitsAtomic(s, q); }
    }
  }

  lemma OrderlyWrite(s: State, p: nat, ok: bool)
    requires Orderly(s) && p in s.procs && s.procs[p].Writing?
    ensures Orderly(GoOn(s, p, ok))
  {
    var s' := GoOn(s, p, ok);
    assert FitsAtomic(s, p);
    forall q | q in s'.procs ensures FitsAtomic(s', q) { assert FitsAtomic(s, q); }
  }

  lemma OrderlyDie(s: State, p: nat)
    requires Orderly(s) && s.Alive(p)
    ensures Orderly(Next(s, Die(p)))
  {
    var s' := Next(s, Die(p));
    assert FitsAtomic(s, p);
    forall q | q in s'.procs ensures FitsAtomic(s', q) { assert FitsAtomic(s, q); }
  }

  /** Reading the lock in one step: the stale lock of a dead process goes, that of a living one stays. */
  lemma ReadWhole(s: State, p: nat, why: Why)
    requires Orderly(s) && s.Alive(p) && s.procs[p] == Idle
    ensures var s' := NextAtomic(s, Call(p, why));
            match s.lock
            case None => s' == s.At(p, NotLocked(why))
            case Some(i) =>
              var q := s.inodes[i].owner;
              if !s.Alive(q) then s' == s.At(p, NotLocked(why)).(lock := None)
              else if why == Removing && q == p then s' == s.At(p, Unlinking)
              else s' == s.At(p, Idle)
  {
    if s.lock.Some? {
      var i := s.lock.value;
      var q := s.inodes[i].owner;
      var text := Buffered(Text(q));
      ReadBack(q);
      assert text != "";
      var s1 := s.At(p, Opened(i, why));
      var s2 := s.At(p, Got(text, why));
      AtTwice(s, p, Opened(i, why), Got(text, why));
      assert GoOn(s1, p, true) == s2 && ReadThrough(s1, p) == ReadThrough(s2, p);
      var s3 := GoOn(s2, p, true);
      assert ReadThrough(s2, p) == ReadThrough(s3, p);
      if !s.Alive(q) {
        AtTwice(s, p, Got(text, why), Breaking(why));
        AtTwice(s, p, Breaking(why), NotLocked(why));
        var s4 := GoOn(s3, p, true);
        assert s4 == s.At(p, NotLocked(why)).(lock := None) && ReadThrough(s3, p) == ReadThrough(s4, p) == s4;
      } else {
        AtTwice(s, p, Got(text, why), s3.procs[p]);
        assert ReadThrough(s3, p) == s3;
      }
    }
  }

  lemma AtTwice(s: State, p: nat, a: Pc, b: Pc)
    ensures s.At(p, a).At(p, b) == s.At(p, b)
  {
    assert s.procs[p := a][p := b] == s.procs[p := b];
  }

  lemma OrderlyCall(s: State, p: nat, why: Why)
    requires Orderly(s) && s.Alive(p) && s.procs[p] == Idle
    ensures Orderly(NextAtomic(s, Call(p, why)))
  {
    ReadWhole(s, p, why);
    var s' := NextAtomic(s, Call(p, why));
    forall q | q in s'.procs ensures FitsAtomic(s', q) { assert FitsAtomic(s, q); }
  }

  lemma OrderlyNext(s: State, a: Action)
    requires Orderly(s)
    ensures Orderly(NextAtomic(s, a))
  {
    if s.Alive(a.pid) {
      assert FitsAtomic(s, a.pid);
      match a
      case Call(p, why) => if s.procs[p] == Idle { OrderlyCall(s, p, why); } else { assert !Reading(s, p); }
      case Go(p, ok) => OrderlyGo(s, p, ok);
      case Die(p) => OrderlyDie(s, p);
    }
  }

  lemma {:induction false} OrderlyRun(s: State, actions: seq<Action>)
    requires Orderly(s)
    ensures Orderly(RunAtomic(s, actions))
    decreases |actions|
  {
    if actions != [] {
      OrderlyNext(s, actions[0]);
      OrderlyRun(NextAtomic(s, actions[0]), actions[1..]);
    }
  }

  /** When _csync_lock_read() is one step, mutual exclusion survives any deaths. */
  lemma MutualExclusionDespiteDeaths(pids: set<nat>, actions: seq<Action>)
    requires SmallPids(pids)
    ensures var s := RunAtomic(Start(pids), actions);
            Exclusive(s) && forall p | p in s.holds ::
                s.Alive(p) && s.lock.Some? && s.lock.value < |s.inodes| && s.inodes[s.lock.value].text == Text(p)
  {
    OrderlyRun(Start(pids), actions);
    var s := RunAtomic(Start(pids), actions);
    forall p | p in s.holds ensures s.Alive(p) { assert FitsAtomic(s, p); }
  }

  // ---------- how two processes can get the lock ----------

  function Goes(p: nat, n: nat): seq<Action> { seq(n, i requires 0 <= i < n => Go(p, true)) }

  lemma {:induction false} RunJoins(s: State, a: seq<Action>, b: seq<Action>)
    ensures Run(s, a + b) == Run(Run(s, a), b)
    decreases |a|
  {
    if a == [] {
      assert a + b == b;
    } else {
      assert (a + b)[0] == a[0] && (a + b)[1..] == a[1..] + b;
      RunJoins(Next(s, a[0]), a[1..], b);
    }
  }

  lemma RunOne(s: State, a: Action)
    ensures Run(s, [a]) == Next(s, a)
  {
    assert [a][1..] == [];
  }

  /** The state once `p` has written and linked its file. */
  function Acquired(s: State, p: nat, i: nat): State
    requires i < |s.inodes|
  {
    s.At(p, Idle).(lock := Some(i), inodes := s.inodes[i := Inode(p, Text(p))], holds := s.holds + {p})
  }

  /** Left alone, a process that writes its file gets a free lock. */
  lemma {:induction false} WriteAndLink(s: State, p: nat, i: nat, n: nat)
    requires p in s.procs && s.procs[p] == Writing(i) && i < |s.inodes| && s.inodes[i].owner == p && s.lock == None
    requires s.inodes[i].text <= Text(p) && n == |Text(p)| - |s.inodes[i].text|
    ensures Run(s, Goes(p, n + 1)) == Acquired(s, p, i)
    decreases n
  {
    var acts := Goes(p, n + 1);
    assert acts[0] == Go(p, true) && acts[1..] == Goes(p, n);
    var s' := Next(s, Go(p, true));
    if n > 0 {
      WriteAndLink(s', p, i, n - 1);
    } else {
      assert s.inodes[i] == Inode(p, Text(p)) && s.inodes[i := s.inodes[i]] == s.inodes;
      assert acts[1..] == [];
    }
  }

  lemma Acquire(s: State, p: nat)
    requires p in s.procs && s.procs[p] == Creating && s.lock == None
    ensures Run(s, Goes(p, |Text(p)| + 2)) ==
              s.At(p, Idle).(lock := Some(|s.inodes|), inodes := s.inodes + [Inode(p, Text(p))], holds := s.holds + {p})
  {
    var i := |s.inodes|;
    var s1 := s.At(p, Writing(i)).(inodes := s.inodes + [Inode(p, "")]);
    assert Goes(p, |Text(p)| + 2)[1..] == Goes(p, |Text(p)| + 1);
    WriteAndLink(s1, p, i, |Text(p)|);
    AtTwice(s, p, Writing(i), Idle);
    assert s1.inodes[i := Inode(p, Text(p))] == s.inodes + [Inode(p, Text(p))];
  }

  /** The file can be read, and names no process, one that is dead, or one whose pid is too big. */
  predicate Broken(s: State, i: nat)
    requires i < |s.inodes|
  {
    var text := Buffered(s.inodes[i].text);
    var q := Strtol(text);
    text != "" && (q == 0 || q > 0xFFFF || !s.Alive(q))
  }

  /** Reading a broken lock leads to its removal. */
  lemma SeenBroken(s: State, p: nat, i: nat)
    requires s.Alive(p) && s.procs[p] == Idle && s.lock == Some(i) && i < |s.inodes| && Broken(s, i)
    ensures Run(s, [Call(p, Locking), Go(p, true), Go(p, true)]) == s.At(p, Breaking(Locking))
  {
    var text := Buffered(s.inodes[i].text);
    var s1, s2, s3 := s.At(p, Opened(i, Locking)), s.At(p, Got(text, Locking)), s.At(p, Breaking(Locking));
    AtTwice(s, p, Opened(i, Locking), Got(text, Locking));
    AtTwice(s, p, Got(text, Locking), Breaking(Locking));
    assert Next(s, Call(p, Locking)) == s1 && Next(s1, Go(p, true)) == s2 && Next(s2, Go(p, true)) == s3;
    var a, b, c := Call(p, Locking), Go(p, true), Go(p, true);
    assert [a, b, c][1..] == [b, c] && [b, c][1..] == [c] && [c][1..] == [];
    assert Run(s, [a, b, c]) == Run(s1, [b, c]) == Run(s2, [c]) == Run(s3, []);
  }

  /** A process about to remove a broken lock goes on to take the lock, whoever has it by then. */
  lemma BreakAndAcquire(s: State, p: nat)
    requires s.Alive(p) && s.procs[p] == Breaking(Locking)
    ensures Run(s, Goes(p, |Text(p)| + 3)) ==
              s.At(p, Idle).(lock := Some(|s.inodes|), inodes := s.inodes + [Inode(p, Text(p))], holds := s.holds + {p})
  {
    var s1 := s.At(p, Creating).(lock := None);
    assert Goes(p, |Text(p)| + 3)[1..] == Goes(p, |Text(p)| + 2);
    Acquire(s1, p);
    AtTwice(s, p, Creating, Idle);
  }

  /** A first process takes the lock. */
  lemma FirstAcquires(pids: set<nat>, p: nat)
    requires p in pids
    ensures Run(Start(pids), [Call(p, Locking)] + Goes(p, |Text(p)| + 2)) ==
              Start(pids).(lock := Some(0), inodes := [Inode(p, Text(p))], holds := {p})
  {
    var s := Start(pids);
    RunJoins(s, [Call(p, Locking)], Goes(p, |Text(p)| + 2));
    RunOne(s, Call(p, Locking));
    Acquire(s.At(p, Creating), p);
    AtTwice(s, p, Creating, Idle);
    assert s.At(p, Idle).procs == s.procs;
  }

  /** Three processes are enough for the race: the first dies with the lock, two others find it stale, the one removes
      it and takes the lock, and the other then removes that. */
  lemma Race(pids: set<nat>, a: nat, b: nat, c: nat) returns (actions: seq<Action>)
    requires SmallPids(pids) && a in pids && b in pids && c in pids && a != b && a != c && b != c
    ensures !Exclusive(Run(Start(pids), actions))
  {
    var get := [Call(a, Locking)] + Goes(a, |Text(a)| + 2);
    FirstAcquires(pids, a);
    var s1 := Run(Start(pids), get);
    var s2 := s1.At(a, Dead).(holds := {});
    assert {a} - {a} == {};
    RunOne(s1, Die(a));
    ReadBack(a);
    var look := [Call(b, Locking), Go(b, true), Go(b, true)];
    SeenBroken(s2, b, 0);
    var s3 := s2.At(b, Breaking(Locking));
    var look' := [Call(c, Locking), Go(c, true), Go(c, true)];
    SeenBroken(s3, c, 0);
    var s4 := s3.At(c, Breaking(Locking));
    var take := Goes(b, |Text(b)| + 3);
    BreakAndAcquire(s4, b);
    var s5 := Run(s4, take);
    var take' := Goes(c, |Text(c)| + 3);
    BreakAndAcquire(s5, c);
    RunJoins(Start(pids), get, [Die(a)]);
    RunJoins(Start(pids), get + [Die(a)], look);
    RunJoins(Start(pids), get + [Die(a)] + look, look');
    RunJoins(Start(pids), get + [Die(a)] + look + look', take);
    RunJoins(Start(pids), get + [Die(a)] + look + look' + take, take');
    actions := get + [Die(a)] + look + look' + take + take';
    assert b in s5.holds;
    assert b in Run(Start(pids), actions).holds && c in Run(Start(pids), actions).holds;
  }

  /** A pid above 0xFFFF reads back as a number above 0xFFFF, even when the buffer cuts it off. */
  lemma BigReadsBig(pid: nat)
    requires pid > 0xFFFF
    ensures Strtol(Buffered(Text(pid))) > 0xFFFF
  {
    if pid < 10_000_000 {
      ReadBack(pid);
    } else {
      FirstDigits(pid);
      assert Buffered(Text(pid)) == Decimal(pid)[..7];
    }
  }

  lemma {:induction false} FirstDigits(pid: nat)
    requires pid >= 1_000_000
    ensures |Decimal(pid)| >= 7 && Strtol(Decimal(pid)[..7]) >= 1_000_000
  {
    if pid < 10_000_000 {
      assert Power10(7) == 10_000_000 by { assert Power10(4) == 10_000; }
      DecimalIsShort(pid, 10_000_000, 7);
      DecimalIsLong(pid, 6);
      NumberOfNumeral(pid, 10);
      assert Decimal(pid)[..7] == Decimal(pid);
    } else {
      FirstDigits(pid / 10);
      assert Decimal(pid)[..7] == Decimal(pid / 10)[..7];
    }
  }

  /** A process with a big pid takes the lock; the next one to look finds it broken and takes it too. */
  lemma BigPidRace(pids: set<nat>, p: nat, q: nat) returns (actions: seq<Action>)
    requires p in pids && q in pids && p != q && p > 0xFFFF
    ensures NoDeaths(actions) && !Exclusive(Run(Start(pids), actions))
  {
    var get := [Call(p, Locking)] + Goes(p, |Text(p)| + 2);
    FirstAcquires(pids, p);
    var s1 := Run(Start(pids), get);
    BigReadsBig(p);
    var look := [Call(q, Locking), Go(q, true), Go(q, true)];
    SeenBroken(s1, q, 0);
    var s2 := s1.At(q, Breaking(Locking));
    var take := Goes(q, |Text(q)| + 3);
    BreakAndAcquire(s2, q);
    RunJoins(Start(pids), get, look);
    RunJoins(Start(pids), get + look, take);
    actions := get + look + take;
    assert p in Run(Start(pids), actions).holds && q in Run(Start(pids), actions).holds;
  }

  // ---------- exactly when the lock excludes ----------

  /** Only living processes have the lock, and at most one process lives. */
  ghost predicate Lone(s: State) {
    && (forall p | p in s.holds :: s.Alive(p))
    && (forall p, q | p in s.procs && q in s.procs && s.Alive(p) && s.Alive(q) :: p == q)
  }

  lemma LoneNext(s: State, a: Action)
    requires Lone(s)
    ensures Lone(Next(s, a))
  {
  }

  /** Of two processes, once one has died, only one lives. */
  lemma DeathLeavesOne(s: State, p: nat)
    requires Quiet(s) && |s.procs.Keys| <= 2 && s.Alive(p)
    ensures Lone(Next(s, Die(p)))
  {
    var s' := Next(s, Die(p));
    forall x, y | x in s'.procs && y in s'.procs && s'.Alive(x) && s'.Alive(y) ensures x == y {
      if x != y {
        assert {p, x, y} <= s.procs.Keys;
        Subset({p, x, y}, s.procs.Keys);
      }
    }
    forall x | x in s'.holds ensures s'.Alive(x) { assert x in s.procs && Fits(s, x); }
  }

  lemma {:induction false} Subset<T>(a: set<T>, b: set<T>)
    requires a <= b
    ensures |a| <= |b|
  {
    assert b == a + (b - a);
  }

  lemma {:induction false} TwoRun(s: State, actions: seq<Action>)
    requires (Quiet(s) || Lone(s)) && |s.procs.Keys| <= 2
    ensures Exclusive(Run(s, actions))
    decreases |actions|
  {
    if actions != [] {
      var a := actions[0];
      if Lone(s) {
        LoneNext(s, a);
      } else if !a.Die? {
        QuietNext(s, a);
      } else if s.Alive(a.pid) {
        DeathLeavesOne(s, a.pid);
      }
      assert Next(s, a).procs.Keys == s.procs.Keys;
      TwoRun(Next(s, a), actions[1..]);
    }
  }

  /** With reads of several steps, the lock survives deaths exactly when no more than two processes compete. */
  lemma RaceExactly(pids: set<nat>)
    requires SmallPids(pids)
    ensures (forall actions :: Exclusive(Run(Start(pids), actions))) <==> |pids| <= 2
  {
    assert Start(pids).procs.Keys == pids;
    if |pids| <= 2 {
      forall actions ensures Exclusive(Run(Start(pids), actions)) { TwoRun(Start(pids), actions); }
    } else {
      var a :| a in pids;
      assert |pids - {a}| == |pids| - 1;
      var b :| b in pids - {a};
      assert |pids - {a} - {b}| == |pids| - 2;
      var c :| c in pids - {a} - {b};
      var actions := Race(pids, a, b, c);
      assert !Exclusive(Run(Start(pids), actions));
    }
  }

  lemma {:induction false} HoldersAreProcesses(s: State, actions: seq<Action>)
    requires s.holds <= s.procs.Keys
    ensures Run(s, actions).holds <= Run(s, actions).procs.Keys == s.procs.Keys
    decreases |actions|
  {
    if actions != [] { HoldersAreProcesses(Next(s, actions[0]), actions[1..]); }
  }

  /** While nobody dies, the lock excludes exactly when every competing pid fits in sixteen bits. */
  lemma PidWidthExactly(pids: set<nat>)
    requires forall p | p in pids :: p > 0
    ensures (forall actions | NoDeaths(actions) :: Exclusive(Run(Start(pids), actions))) <==>
              SmallPids(pids) || |pids| <= 1
  {
    if SmallPids(pids) {
      forall actions | NoDeaths(actions) ensures Exclusive(Run(Start(pids), actions)) {
        MutualExclusion(pids, actions);
      }
    } else if |pids| <= 1 {
      forall actions ensures Exclusive(Run(Start(pids), actions)) {
        HoldersAreProcesses(Start(pids), actions);
        forall p, q | p in pids && q in pids ensures p == q {
          if p != q { Subset({p, q}, pids); }
        }
      }
    } else {
      var p :| p in pids && p > 0xFFFF;
      assert |pids - {p}| == |pids| - 1;
      var q :| q in pids - {p};
      var actions := BigPidRace(pids, p, q);
      assert !Exclusive(Run(Start(pids), actions));
    }
  }

  // ---------- the lock can be had again ----------

  lemma {:induction false} IdleRests(s: State, p: nat, n: nat)
    requires p in s.procs && s.procs[p] == Idle
    ensures Run(s, Goes(p, n)) == s
    decreases n
  {
    if n > 0 {
      assert Goes(p, n)[0] == Go(p, true) && Goes(p, n)[1..] == Goes(p, n - 1);
      IdleRests(s, p, n - 1);
    }
  }

  /** A process that did not find the lock broken cannot make it its own. */
  lemma {:induction false} LockStays(s: State, p: nat, n: nat)
    requires s.lock.Some? && p in s.procs && (s.procs[p].Idle? || s.procs[p].Creating? || s.procs[p].Writing?)
    ensures Run(s, Goes(p, n)).lock == s.lock
    decreases n
  {
    if n > 0 {
      assert Goes(p, n)[0] == Go(p, true) && Goes(p, n)[1..] == Goes(p, n - 1);
      LockStays(Next(s, Go(p, true)), p, n - 1);
    }
  }

  lemma GoesJoin(p: nat, m: nat, n: nat)
    ensures Goes(p, m + n) == Goes(p, m) + Goes(p, n)
  {
  }

  lemma CallAndGoes(s: State, p: nat, m: nat, n: nat)
    ensures Run(s, [Call(p, Locking)] + Goes(p, m + n)) == Run(Run(Next(s, Call(p, Locking)), Goes(p, m)), Goes(p, n))
  {
    GoesJoin(p, m, n);
    RunJoins(s, [Call(p, Locking)], Goes(p, m + n));
    RunOne(s, Call(p, Locking));
    RunJoins(Next(s, Call(p, Locking)), Goes(p, m), Goes(p, n));
  }

  /** Left alone, a process gets the lock exactly if there is none, or it is broken; so the lock of a process that died
      after it had written all of its pid is taken over, but an empty lock file never is. */
  lemma StaleLockIsTaken(s: State, p: nat)
    requires s.Alive(p) && s.procs[p] == Idle && (s.lock.Some? ==> s.lock.value < |s.inodes|)
    ensures var s' := Run(s, [Call(p, Locking)] + Goes(p, |Text(p)| + 5));
            && (s'.lock == Some(|s.inodes|) <==> s.lock == None || Broken(s, s.lock.value))
            && (s'.lock == Some(|s.inodes|) ==> s'.holds == s.holds + {p})
  {
    var n := |Text(p)|;
    if s.lock == None {
      NoLockIsTaken(s, p);
    } else if Broken(s, s.lock.value) {
      BrokenLockIsTaken(s, p);
    } else if Buffered(s.inodes[s.lock.value].text) == "" {
      var s1 := s.At(p, Opened(s.lock.value, Locking));
      AtTwice(s, p, Opened(s.lock.value, Locking), Creating);
      CallAndGoes(s, p, 1, n + 4);
      assert Goes(p, 1) == [Go(p, true)];
      RunOne(s1, Go(p, true));
      LockStays(s.At(p, Creating), p, n + 4);
    } else {
      LiveLockIsLeft(s, p);
    }
  }

  lemma NoLockIsTaken(s: State, p: nat)
    requires s.Alive(p) && s.procs[p] == Idle && s.lock == None
    ensures var s' := Run(s, [Call(p, Locking)] + Goes(p, |Text(p)| + 5));
            s'.lock == Some(|s.inodes|) && s'.holds == s.holds + {p}
  {
    var s1 := s.At(p, Creating);
    CallAndGoes(s, p, |Text(p)| + 2, 3);
    Acquire(s1, p);
    IdleRests(Run(s1, Goes(p, |Text(p)| + 2)), p, 3);
  }

  lemma BrokenLockIsTaken(s: State, p: nat)
    requires s.Alive(p) && s.procs[p] == Idle && s.lock.Some? && s.lock.value < |s.inodes| && Broken(s, s.lock.value)
    ensures var s' := Run(s, [Call(p, Locking)] + Goes(p, |Text(p)| + 5));
            s'.lock == Some(|s.inodes|) && s'.holds == s.holds + {p}
  {
    var s1 := s.At(p, Breaking(Locking));
    CallAndGoes(s, p, 2, |Text(p)| + 3);
    SeenBroken(s, p, s.lock.value);
    assert [Call(p, Locking), Go(p, true), Go(p, true)] == [Call(p, Locking)] + Goes(p, 2);
    RunJoins(s, [Call(p, Locking)], Goes(p, 2));
    RunOne(s, Call(p, Locking));
    BreakAndAcquire(s1, p);
  }

  lemma LiveLockIsLeft(s: State, p: nat)
    requires s.Alive(p) && s.procs[p] == Idle && s.lock.Some? && s.lock.value < |s.inodes|
    requires !Broken(s, s.lock.value) && Buffered(s.inodes[s.lock.value].text) != ""
    ensures Run(s, [Call(p, Locking)] + Goes(p, |Text(p)| + 5)).lock == s.lock
  {
    var text := Buffered(s.inodes[s.lock.value].text);
    var s1, s2 := s.At(p, Opened(s.lock.value, Locking)), s.At(p, Got(text, Locking));
    AtTwice(s, p, Opened(s.lock.value, Locking), Got(text, Locking));
    AtTwice(s, p, Got(text, Locking), Idle);
    CallAndGoes(s, p, 2, |Text(p)| + 3);
    GoesJoin(p, 1, 1);
    assert Goes(p, 1) == [Go(p, true)];
    RunJoins(s1, Goes(p, 1), Goes(p, 1));
    RunOne(s1, Go(p, true));
    RunOne(s2, Go(p, true));
    LockStays(s.At(p, Idle), p, |Text(p)| + 3);
  }

  /** A pid reads back as itself through the buffer exactly if it has up to seven digits. */
  lemma ReadBackExactly(pid: nat)
    ensures Strtol(Buffered(Text(pid))) == pid <==> pid < 10_000_000
  {
    if pid < 10_000_000 {
      ReadBack(pid);
    } else {
      var d := Decimal(pid);
      FirstDigits(pid);
      assert Buffered(Text(pid)) == d[..7] && forall c | c in d[..7] :: c in d;
      NumberBound(d[..7], 0);
      assert Power10(7) == 10_000_000 by { assert Power10(4) == 10_000; }
    }
  }

  // ---------- giving the lock back ----------

  /** The file can be read, and names the process `p`. */
  predicate Names(s: State, i: nat, p: nat)
    requires i < |s.inodes|
  {
    Buffered(s.inodes[i].text) != "" && Strtol(Buffered(s.inodes[i].text)) == p
  }

  /** csync_lock_remove(), left alone: a process gives its lock back; it also clears away a lock that is broken, and
      leaves that of another living process, or one that it cannot read, as it is. */
  lemma RemovedExactly(s: State, p: nat)
    requires s.Alive(p) && s.procs[p] == Idle && (s.lock.Some? ==> s.lock.value < |s.inodes|)
    ensures Run(s, [Call(p, Removing)] + Goes(p, 3)) ==
              if s.lock == None then s
              else if Broken(s, s.lock.value) then s.(lock := None)
              else if Names(s, s.lock.value, p) then s.(lock := None, holds := s.holds - {p})
              else s
  {
    RunJoins(s, [Call(p, Removing)], Goes(p, 3));
    RunOne(s, Call(p, Removing));
    assert s.At(p, Idle).procs == s.procs;
    if s.lock == None {
      IdleRests(s, p, 3);
    } else {
      RemoveOpened(s, p, s.lock.value);
    }
  }

  lemma RemoveOpened(s: State, p: nat, i: nat)
    requires s.Alive(p) && s.procs[p] == Idle && s.lock == Some(i) && i < |s.inodes|
    ensures Run(s.At(p, Opened(i, Removing)), Goes(p, 3)) ==
              if Broken(s, i) then s.(lock := None)
              else if Names(s, i, p) then s.(lock := None, holds := s.holds - {p})
              else s
  {
    var text := Buffered(s.inodes[i].text);
    var s1 := s.At(p, Opened(i, Removing));
    assert s.At(p, Idle).procs == s.procs;
    GoFirst(s1, p, 2);
    if text == "" {
      AtTwice(s, p, Opened(i, Removing), Idle);
      IdleRests(s, p, 2);
    } else {
      AtTwice(s, p, Opened(i, Removing), Got(text, Removing));
      RemoveGot(s, p, i);
    }
  }

  lemma RemoveGot(s: State, p: nat, i: nat)
    requires s.Alive(p) && s.procs[p] == Idle && s.lock == Some(i) && i < |s.inodes|
    requires Buffered(s.inodes[i].text) != ""
    ensures Run(s.At(p, Got(Buffered(s.inodes[i].text), Removing)), Goes(p, 2)) ==
              if Broken(s, i) then s.(lock := None)
              else if Names(s, i, p) then s.(lock := None, holds := s.holds - {p})
              else s
  {
    var text := Buffered(s.inodes[i].text);
    var s1 := s.At(p, Got(text, Removing));
    assert s.At(p, Idle).procs == s.procs;
    GoFirst(s1, p, 1);
    if Broken(s, i) {
      AtTwice(s, p, Got(text, Removing), Breaking(Removing));
      GoFirst(s.At(p, Breaking(Removing)), p, 0);
      AtTwice(s, p, Breaking(Removing), Idle);
    } else if Names(s, i, p) {
      AtTwice(s, p, Got(text, Removing), Unlinking);
      GoFirst(s.At(p, Unlinking), p, 0);
      AtTwice(s, p, Unlinking, Idle);
    } else {
      AtTwice(s, p, Got(text, Removing), Idle);
      IdleRests(s, p, 1);
    }
  }

  lemma GoFirst(s: State, p: nat, n: nat)
    ensures Run(s, Goes(p, n + 1)) == Run(Next(s, Go(p, true)), Goes(p, n))
    ensures Run(s, Goes(p, 0)) == s
  {
    assert Goes(p, n + 1)[0] == Go(p, true) && Goes(p, n + 1)[1..] == Goes(p, n);
  }

  /** A process that may not create, write or link its file gives up, and the lock stays as it is. */
  lemma FailedLockChangesNothing(s: State, p: nat)
    requires s.Alive(p) && (s.procs[p].Creating? || s.procs[p].Writing?)
    ensures Next(s, Go(p, false)) == s.At(p, Idle)
  {
  }
}
