/** standalone.c: the listener's books on its children, and the limits check_limits enforces with them. */
module Listener {
  import opened Basics
  import opened HashTable

  /** ++ and -- on an unsigned int. */
  function Inc(x: Word): Word { if x + 1 < WORD then x + 1 else 0 }

  function Dec(x: Word): Word { if x > 0 then x - 1 else WORD - 1 }

  /** A process id as fork and waitpid return it to a parent. */
  type Pid = x: int | 0 < x < 0x8000_0000 witness 1

  /** A raw address of s_ipaddr_size bytes. */
  type Ip = s: seq<bv8> | |s| == 16 witness seq(16, _ => 0)

  const BUCKETS: nat := 256

  function FoldIp(s: seq<bv8>, shift: int): bv32
    requires 0 <= shift <= 24
  {
    if s == [] then 0 else (s[0] as bv32 << shift) ^ FoldIp(s[1..], if shift < 8 then 24 else shift - 8)
  }

  /** hash_ip */
  function HashIp(ip: Ip): (b: nat)
    ensures b < BUCKETS
  {
    FoldIp(ip, 24) as int % BUCKETS
  }

  /** hash_pid */
  function HashPid(pid: Pid): (b: nat)
    ensures b < BUCKETS
  {
    pid % BUCKETS
  }

  // ---------------------------------------------------------------- children by address

  /** The children serving an address. */
  function At(alive: map<Pid, Ip>, ip: Ip): (s: set<Pid>)
    ensures s <= alive.Keys
  {
    set p | p in alive && alive[p] == ip
  }

  lemma AtAdd(alive: map<Pid, Ip>, pid: Pid, ip: Ip, other: Ip)
    requires pid !in alive
    ensures At(alive[pid := ip], other) == At(alive, other) + if other == ip then {pid} else {}
    ensures |At(alive[pid := ip], other)| == |At(alive, other)| + if other == ip then 1 else 0
  {
  }

  lemma AtRemove(alive: map<Pid, Ip>, pid: Pid, other: Ip)
    requires pid in alive
    ensures |At(alive - {pid}, other)| == |At(alive, other)| - if other == alive[pid] then 1 else 0
  {
    assert At(alive, other) == At(alive - {pid}, other) + if other == alive[pid] then {pid} else {};
  }

  lemma {:induction false} FewPids(s: set<int>, n: nat)
    requires forall p | p in s :: 0 < p <= n
    ensures |s| <= n
  {
    if n == 0 {
      assert forall p :: p !in s;
    } else {
      FewPids(s - {n}, n - 1);
      assert s == s - {n} || s == s - {n} + {n};
    }
  }

  /** Too few process ids exist for any count of children to wrap around. */
  lemma ChildrenFit(alive: map<Pid, Ip>, ip: Ip)
    ensures |At(alive, ip)| <= |alive| < 0x8000_0000
  {
    FewPids(set p | p in alive :: p as int, 0x7fff_ffff);
    assert (set p | p in alive :: p as int) == alive.Keys;
    SubsetSize(At(alive, ip), alive.Keys);
  }

  /** The count a table holds for an address. */
  function Held(counts: map<Ip, Word>, ip: Ip): Word {
    if ip in counts then counts[ip] else 0
  }

  /**
   Each address is counted once per child that serves it, plus the connection between accept and
   fork when there is one; an address has an entry only while its count is positive.
   */
  ghost predicate Balanced(counts: map<Ip, Word>, alive: map<Pid, Ip>, pending: Option<Ip>) {
    && (forall ip :: Held(counts, ip) == |At(alive, ip)| + if pending == Some(ip) then 1 else 0)
    && (forall ip | ip in counts :: counts[ip] > 0)
  }

  function Raised(counts: map<Ip, Word>, ip: Ip): map<Ip, Word>
    requires Held(counts, ip) + 1 < WORD
  {
    counts[ip := Held(counts, ip) + 1]
  }

  function Lowered(counts: map<Ip, Word>, ip: Ip): map<Ip, Word>
    requires Held(counts, ip) > 0
  {
    if Held(counts, ip) == 1 then counts - {ip} else counts[ip := Held(counts, ip) - 1]
  }

  lemma ArrivalBalances(counts: map<Ip, Word>, alive: map<Pid, Ip>, ip: Ip)
    requires Balanced(counts, alive, None)
    ensures Held(counts, ip) + 1 < WORD && Balanced(Raised(counts, ip), alive, Some(ip))
  {
    ChildrenFit(alive, ip);
  }

  lemma FailureBalances(counts: map<Ip, Word>, alive: map<Pid, Ip>, ip: Ip)
    requires Balanced(counts, alive, Some(ip))
    ensures Held(counts, ip) > 0 && Balanced(Lowered(counts, ip), alive, None)
  {
    assert Held(counts, ip) == |At(alive, ip)| + 1;
  }

  lemma ForkBalances(counts: map<Ip, Word>, alive: map<Pid, Ip>, pid: Pid, ip: Ip)
    requires Balanced(counts, alive, Some(ip)) && pid !in alive
    ensures Balanced(counts, alive[pid := ip], None)
  {
    forall other ensures Held(counts, other) == |At(alive[pid := ip], other)| {
      AtAdd(alive, pid, ip, other);
    }
  }

  lemma ReapBalances(counts: map<Ip, Word>, alive: map<Pid, Ip>, pid: Pid, pending: Option<Ip>)
    requires Balanced(counts, alive, pending) && pid in alive
    ensures Held(counts, alive[pid]) > 0
    ensures Balanced(Lowered(counts, alive[pid]), alive - {pid}, pending)
    ensures |alive - {pid}| == |alive| - 1
  {
    var ip := alive[pid];
    assert pid in At(alive, ip);
    assert Held(counts, ip) > 0;
    var counts' := Lowered(counts, ip);
    forall other ensures Held(counts', other) == |At(alive - {pid}, other)| + if pending == Some(other) then 1 else 0 {
      AtRemove(alive, pid, other);
      assert Held(counts, other) == |At(alive, other)| + if pending == Some(other) then 1 else 0;
    }
  }

  // ---------------------------------------------------------------- the limits

  /** What vsf_standalone_main hands the session: how many there are, and from this address. */
  datatype Launch = Launch(children: Word, thisIp: Word)

  /** The configured limits; zero means none. */
  datatype Limits = Limits(maxClients: Word, maxPerIp: Word)

  /** The two limit checks of check_limits. */
  predicate Passes(l: Launch, limits: Limits) {
    (limits.maxClients > 0 ==> l.children <= limits.maxClients) && (limits.maxPerIp > 0 ==> l.thisIp <= limits.maxPerIp)
  }

  /** The sessions that passed the checks respect the limits, in total and for every address. */
  ghost predicate Within(admitted: set<Pid>, alive: map<Pid, Ip>, limits: Limits) {
    && admitted <= alive.Keys
    && (limits.maxClients > 0 ==> |admitted| <= limits.maxClients)
    && (limits.maxPerIp > 0 ==> forall ip :: |admitted * At(alive, ip)| <= limits.maxPerIp)
  }

  lemma WithinReaped(admitted: set<Pid>, alive: map<Pid, Ip>, pid: Pid, limits: Limits)
    requires Within(admitted, alive, limits)
    ensures Within(admitted - {pid}, alive - {pid}, limits)
  {
    SubsetSize(admitted - {pid}, admitted);
    forall ip ensures |(admitted - {pid}) * At(alive - {pid}, ip)| <= |admitted * At(alive, ip)| {
      SubsetSize((admitted - {pid}) * At(alive - {pid}, ip), admitted * At(alive, ip));
    }
  }

  /** A new child that passes the checks keeps the limits; one that does not is never counted. */
  lemma WithinForked(admitted: set<Pid>, alive: map<Pid, Ip>, pid: Pid, ip: Ip, l: Launch, passes: bool, limits: Limits)
    requires Within(admitted, alive, limits) && pid !in alive
    requires l.children > |alive| && l.thisIp > |At(alive, ip)|
    requires passes ==> Passes(l, limits)
    ensures Within(if passes then admitted + {pid} else admitted, alive[pid := ip], limits)
  {
    var now, more := alive[pid := ip], if passes then admitted + {pid} else admitted;
    SubsetSize(admitted, alive.Keys);
    forall other ensures limits.maxPerIp > 0 ==> |more * At(now, other)| <= limits.maxPerIp {
      AtForked(admitted, alive, pid, ip, passes, other);
    }
  }

  lemma AddOne<T>(a: set<T>, b: set<T>, x: T)
    requires x !in a && x !in b
    ensures (a + {x}) * (b + {x}) == a * b + {x} && (a + {x}) * b == a * b && a * (b + {x}) == a * b
  {
  }

  lemma AtForked(admitted: set<Pid>, alive: map<Pid, Ip>, pid: Pid, ip: Ip, passes: bool, other: Ip)
    requires admitted <= alive.Keys && pid !in alive
    ensures var more := if passes then admitted + {pid} else admitted;
            |more * At(alive[pid := ip], other)| == |admitted * At(alive, other)| + if passes && other == ip then 1 else 0
    ensures |admitted * At(alive, other)| <= |At(alive, other)|
  {
    var was := At(alive, other);
    AtAdd(alive, pid, ip, other);
    SubsetSize(admitted * was, was);
    AddOne(admitted, was, pid);
  }

  /** A connection that finds these children unreaped is within the limits: there is a place left of each kind. */
  predicate Room(alive: map<Pid, Ip>, ip: Ip, limits: Limits) {
    && (limits.maxClients == 0 || |alive| < limits.maxClients)
    && (limits.maxPerIp == 0 || |At(alive, ip)| < limits.maxPerIp)
  }

  // ---------------------------------------------------------------- what the kernel does

  /**
   A connection: its address, what fork says, the children reaped while close is retried, and whether
   TCP wrappers allow it.
   */
  datatype Connection = Connection(ip: Ip, fork: Option<Pid>, during: seq<Pid>, allowed: bool)

  /** One return of accept: the children reaped first, then the connection if there is one. */
  datatype Arrival = Arrival(before: seq<Pid>, conn: Option<Connection>)

  function Pids(s: seq<Pid>): set<Pid> {
    set p | p in s
  }

  /** waitpid returns each unreaped child at most once, and nothing else. */
  predicate Reapable(alive: map<Pid, Ip>, s: seq<Pid>) {
    Pids(s) <= alive.Keys && Distinct(s)
  }

  predicate Distinct(s: seq<Pid>) {
    forall i, j | 0 <= i < j < |s| :: s[i] != s[j]
  }

  lemma PidsNone(s: seq<Pid>, alive: map<Pid, Ip>)
    ensures Pids(s[..0]) == {} && alive - Pids(s[..0]) == alive
    ensures s[..|s|] == s
  {
  }

  lemma ReapNext(alive: map<Pid, Ip>, s: seq<Pid>, n: nat)
    requires Distinct(s) && n < |s|
    ensures Pids(s[..n + 1]) == Pids(s[..n]) + {s[n]}
    ensures s[n] in alive - Pids(s[..n]) <==> s[n] in alive
    ensures alive - Pids(s[..n]) - {s[n]} == alive - Pids(s[..n + 1])
    ensures s[n] in Pids(s)
  {
    assert s[..n + 1] == s[..n] + [s[n]];
  }

  function Forked(alive: map<Pid, Ip>, c: Connection): map<Pid, Ip> {
    if c.fork.Some? then alive[c.fork.value := c.ip] else alive
  }

  /** The unreaped children after an arrival. */
  function After(alive: map<Pid, Ip>, a: Arrival): map<Pid, Ip> {
    var m := alive - Pids(a.before);
    if a.conn.None? then m else Forked(m, a.conn.value) - Pids(a.conn.value.during)
  }

  /** fork never returns the id of an unreaped child. */
  predicate Possible(alive: map<Pid, Ip>, a: Arrival) {
    && Reapable(alive, a.before)
    && var m := alive - Pids(a.before);
       a.conn.Some? ==>
         && Reapable(Forked(m, a.conn.value), a.conn.value.during)
         && (a.conn.value.fork.Some? ==> a.conn.value.fork.value !in m)
  }

  /**
   Reaping while close is retried trips over the new child and nothing else; a child it spares can be
   entered afterwards.
   */
  lemma CloseRace(alive: map<Pid, Ip>, c: Connection)
    requires Reapable(Forked(alive, c), c.during) && (c.fork.Some? ==> c.fork.value !in alive)
    ensures Pids(c.during) <= alive.Keys <==> !(c.fork.Some? && c.fork.value in c.during)
    ensures c.fork.None? ==> Forked(alive, c) == alive
    ensures c.fork.Some? && c.fork.value !in c.during ==>
              Forked(alive, c) - Pids(c.during) == (alive - Pids(c.during))[c.fork.value := c.ip]
    ensures !(c.fork.Some? && c.fork.value in c.during) ==>
              Forked(alive, c) - Pids(c.during) == Forked(alive - Pids(c.during), c)
  {
  }

  lemma ForkedIs(alive: map<Pid, Ip>, c: Connection)
    ensures Forked(alive, c) == if c.fork.Some? then alive[c.fork.value := c.ip] else alive
  {
  }

  lemma FewerLeft(alive: map<Pid, Ip>, reaped: set<Pid>, ip: Ip)
    ensures |alive - reaped| <= |alive| && |At(alive - reaped, ip)| <= |At(alive, ip)|
  {
    SubsetSize((alive - reaped).Keys, alive.Keys);
    SubsetSize(At(alive - reaped, ip), At(alive, ip));
  }

  function Alive(arrivals: seq<Arrival>): map<Pid, Ip> {
    if arrivals == [] then map[] else After(Alive(arrivals[..|arrivals| - 1]), arrivals[|arrivals| - 1])
  }

  predicate AllPossible(arrivals: seq<Arrival>) {
    forall n | 0 <= n < |arrivals| :: Possible(Alive(arrivals[..n]), arrivals[n])
  }

  /** The new child is reaped before it is in the pid table. */
  predicate Raced(a: Arrival) {
    a.conn.Some? && a.conn.value.fork.Some? && a.conn.value.fork.value in a.conn.value.during
  }

  /** Any connection whose fork succeeds can be raced, whatever has happened before. */
  lemma RaceIsPossible(arrivals: seq<Arrival>, pid: Pid, ip: Ip, allowed: bool)
    requires AllPossible(arrivals) && pid !in Alive(arrivals)
    ensures var raced := Arrival([], Some(Connection(ip, Some(pid), [pid], allowed)));
            AllPossible(arrivals + [raced]) && Raced(raced)
  {
    var raced := Arrival([], Some(Connection(ip, Some(pid), [pid], allowed)));
    var all, alive := arrivals + [raced], Alive(arrivals);
    assert Pids([]) == {} && alive - Pids([]) == alive;
    assert pid in Forked(alive, raced.conn.value);
    assert Possible(alive, raced);
    forall n | 0 <= n < |all| ensures Possible(Alive(all[..n]), all[n]) {
      assert all[..n] == arrivals[..n];
      assert arrivals[..|arrivals|] == arrivals;
    }
  }

  // ---------------------------------------------------------------- who is served

  /** The client is let in: TCP wrappers allow it, and the connection found room. */
  predicate LetIn(alive: map<Pid, Ip>, c: Connection, limits: Limits) {
    c.allowed && Room(alive, c.ip, limits)
  }

  /** The session of a new child, if there is one and it serves its client. */
  function Newcomer(c: Connection, serves: bool): set<Pid> {
    if c.fork.Some? && serves then {c.fork.value} else {}
  }

  /** Counted in itself, a connection passes the checks exactly if it found room. */
  lemma LetInMeans(alive: map<Pid, Ip>, c: Connection, l: Launch, limits: Limits)
    requires l.children == |alive| + 1 && l.thisIp == |At(alive, c.ip)| + 1
    ensures LetIn(alive, c, limits) == (c.allowed && Passes(l, limits))
  {
  }

  /** The running sessions that were let in, after an arrival. */
  function Serving(admitted: set<Pid>, alive: map<Pid, Ip>, a: Arrival, limits: Limits): set<Pid> {
    var m := admitted - Pids(a.before);
    if a.conn.None? then m
    else m - Pids(a.conn.value.during)
         + Newcomer(a.conn.value, LetIn(alive - Pids(a.before), a.conn.value, limits) && !Raced(a))
  }

  function Admitted(arrivals: seq<Arrival>, limits: Limits): set<Pid> {
    if arrivals == [] then {} else
    var before := arrivals[..|arrivals| - 1];
    Serving(Admitted(before, limits), Alive(before), arrivals[|arrivals| - 1], limits)
  }

  /** waitpid returns this child in the course of the arrival. */
  predicate Reaps(a: Arrival, p: Pid) {
    p in a.before || (a.conn.Some? && p in a.conn.value.during)
  }

  /** The n-th arrival brought a child that has not been reaped since. */
  predicate Stays(arrivals: seq<Arrival>, n: nat) {
    && n < |arrivals| && arrivals[n].conn.Some? && arrivals[n].conn.value.fork.Some? && !Raced(arrivals[n])
    && forall k | n < k < |arrivals| :: !Reaps(arrivals[k], arrivals[n].conn.value.fork.value)
  }

  /** What the n-th arrival's connection found. */
  predicate FoundRoom(arrivals: seq<Arrival>, n: nat, limits: Limits)
    requires n < |arrivals| && arrivals[n].conn.Some?
  {
    Room(Alive(arrivals[..n]) - Pids(arrivals[n].before), arrivals[n].conn.value.ip, limits)
  }

  /** A child that stays is unreaped. */
  lemma {:induction false} StaysAlive(arrivals: seq<Arrival>, n: nat)
    requires Stays(arrivals, n)
    ensures arrivals[n].conn.value.fork.value in Alive(arrivals)
    decreases |arrivals|
  {
    var before := arrivals[..|arrivals| - 1];
    if n == |before| {
    } else {
      assert before[n] == arrivals[n];
      StaysAlive(before, n);
    }
  }

  /** A child that stays is served exactly if TCP wrappers allowed it and its own connection found room. */
  lemma {:induction false} ServedExactly(arrivals: seq<Arrival>, limits: Limits, n: nat)
    requires AllPossible(arrivals) && Stays(arrivals, n)
    ensures arrivals[n].conn.value.fork.value in Admitted(arrivals, limits) <==>
            arrivals[n].conn.value.allowed && FoundRoom(arrivals, n, limits)
    decreases |arrivals|
  {
    hide Room;
    var before, a, p := arrivals[..|arrivals| - 1], arrivals[|arrivals| - 1], arrivals[n].conn.value.fork.value;
    PossibleBefore(arrivals);
    if n == |before| {
      assert Possible(Alive(arrivals[..n]), arrivals[n]);
      AdmittedAlive(before, limits);
    } else {
      assert before[n] == arrivals[n] && before[..n] == arrivals[..n];
      ServedExactly(before, limits, n);
      StaysAlive(before, n);
      assert !Reaps(a, p) && Possible(Alive(arrivals[..|before|]), arrivals[|before|]);
    }
  }

  ghost predicate ServedRightly(arrivals: seq<Arrival>, limits: Limits, admitted: set<Pid>) {
    forall n: nat | Stays(arrivals, n) ::
      arrivals[n].conn.value.fork.value in admitted <==>
      arrivals[n].conn.value.allowed && FoundRoom(arrivals, n, limits)
  }

  lemma AllServedRightly(arrivals: seq<Arrival>, limits: Limits)
    requires AllPossible(arrivals)
    ensures ServedRightly(arrivals, limits, Admitted(arrivals, limits))
  {
    hide Admitted, FoundRoom, AllPossible;
    forall n: nat | Stays(arrivals, n)
      ensures arrivals[n].conn.value.fork.value in Admitted(arrivals, limits) <==>
              arrivals[n].conn.value.allowed && FoundRoom(arrivals, n, limits)
    {
      ServedExactly(arrivals, limits, n);
    }
  }

  lemma PossibleBefore(arrivals: seq<Arrival>)
    requires AllPossible(arrivals) && arrivals != []
    ensures AllPossible(arrivals[..|arrivals| - 1])
  {
    var before := arrivals[..|arrivals| - 1];
    forall n | 0 <= n < |before| ensures Possible(Alive(before[..n]), before[n]) {
      assert before[..n] == arrivals[..n] && before[n] == arrivals[n];
    }
  }

  lemma {:induction false} AdmittedAlive(arrivals: seq<Arrival>, limits: Limits)
    requires AllPossible(arrivals)
    ensures Admitted(arrivals, limits) <= Alive(arrivals).Keys
  {
    hide Room;
    if arrivals == [] {
    } else {
      PossibleBefore(arrivals);
      AdmittedAlive(arrivals[..|arrivals| - 1], limits);
    }
  }

  // ---------------------------------------------------------------- the listener

  /** How a step ends: as it should, in a call of bug(), or by hashing an address at NULL. */
  datatype Fate = Fine | Bug | NullRead

  class Listener {
    var children: Word
    const counts: Table<Ip, Word>
    const pids: Table<Pid, Ip>
    /** Running sessions that passed check_limits. */
    ghost var admitted: set<Pid>

    ghost predicate CountsOk()
      reads counts, counts.heads, counts.repr
    {
      counts.Valid() && counts.hash == HashIp && counts.buckets == BUCKETS
    }

    ghost predicate PidsOk()
      reads pids, pids.heads, pids.repr
    {
      pids.Valid() && pids.hash == HashPid && pids.buckets == BUCKETS
    }

    /** Between steps: the two tables and the counter tell the same story. */
    ghost predicate Books(pending: Option<Ip>)
      reads this`children, counts, counts.heads, counts.repr, pids, pids.heads, pids.repr
    {
      && CountsOk() && PidsOk()
      && children == |pids.Map()| + (if pending.Some? then 1 else 0)
      && Balanced(counts.Map(), pids.Map(), pending)
    }

    constructor ()
      ensures Books(None) && pids.Map() == map[] && admitted == {}
      ensures fresh(counts) && fresh(counts.heads) && counts.repr == {}
      ensures fresh(pids) && fresh(pids.heads) && pids.repr == {}
    {
      children := 0;
      counts := new Table(BUCKETS, HashIp);
      pids := new Table(BUCKETS, HashPid);
      admitted := {};
    }

    /** handle_ip_count */
    method HandleIpCount(ip: Ip) returns (died: bool, count: Word)
      requires CountsOk() && Held(counts.Map(), ip) + 1 < WORD
      modifies counts`nodes, counts`stamp, counts`repr, counts.heads, counts.repr
      ensures CountsOk() && !died
      ensures counts.Map() == Raised(old(counts.Map()), ip) && count == Held(counts.Map(), ip)
      ensures fresh(counts.repr - old(counts.repr))
    {
      var p;
      died, p := counts.Find(ip);
      if p == null {
        count := 1;
        died := counts.Add(ip, count);
      } else {
        count := p.value;
        count := Inc(count);
        counts.Store(p, count);
      }
    }

    /**
     drop_ip_count: an address with no entry, or one at zero, is a bug; no address at all is hashed all
     the same.
     */
    method DropIpCount(ip: Option<Ip>) returns (fate: Fate)
      requires CountsOk()
      modifies counts`nodes, counts.heads, counts.repr
      ensures fate == if ip.None? then NullRead else if old(Held(counts.Map(), ip.value)) == 0 then Bug else Fine
      ensures fate.Fine? ==> CountsOk() && counts.Map() == Lowered(old(counts.Map()), ip.value)
    {
      if ip.None? {
        return NullRead;
      }
      var died, p := counts.Find(ip.value);
      if p == null {
        return Bug;
      }
      var count := p.value;
      if count == 0 {
        return Bug;
      }
      count := count - 1;
      counts.Store(p, count);
      if count == 0 {
        died := counts.Free(ip.value);
        assert counts.Map() == old(counts.Map()) - {ip.value};
      }
      fate := if died then Bug else Fine;
    }

    /** The two hash tables lose a reaped child; for one the pid table does not know, the address is NULL. */
    method Forget(pid: Pid, ghost pending: Option<Ip>) returns (fate: Fate)
      requires CountsOk() && PidsOk() && Balanced(counts.Map(), pids.Map(), pending)
      modifies counts`nodes, counts.heads, counts.repr
      modifies pids`nodes, pids.heads, pids.repr
      ensures fate == if pid in old(pids.Map()) then Fine else NullRead
      ensures fate.Fine? ==> CountsOk() && PidsOk() && Balanced(counts.Map(), pids.Map(), pending)
      ensures fate.Fine? ==> pids.Map() == old(pids.Map()) - {pid}
    {
      hide Table.Valid, Table.Map, Balanced, Lowered, Held, At;
      ghost var alive := pids.Map();
      var died, ip := pids.Lookup(pid);
      if pid in alive {
        ReapBalances(counts.Map(), alive, pid, pending);
      }
      fate := DropIpCount(ip);
      if fate.Fine? {
        died := pids.Free(pid);
        fate := if died then Bug else Fine;
      }
    }

    /** One turn of handle_sigchld: waitpid has returned `pid`. */
    method ReapOne(pid: Pid, ghost pending: Option<Ip>) returns (fate: Fate)
      requires Books(pending)
      modifies this`children, this`admitted, counts`nodes, counts.heads, counts.repr
      modifies pids`nodes, pids.heads, pids.repr
      ensures fate == if pid in old(pids.Map()) then Fine else NullRead
      ensures fate.Fine? ==> Books(pending) && pids.Map() == old(pids.Map()) - {pid}
      ensures admitted == old(admitted) - {pid}
    {
      hide Table.Valid, Table.Map, Balanced;
      assert pid in pids.Map() ==> |pids.Map() - {pid}| == |pids.Map()| - 1;
      children := Dec(children);
      admitted := admitted - {pid};
      fate := Forget(pid, pending);
    }

    /** handle_sigchld, when waitpid returns these children and then none. */
    method HandleSigchld(reaped: seq<Pid>, ghost pending: Option<Ip>, ghost limits: Limits) returns (fate: Fate)
      requires Books(pending) && Within(admitted, pids.Map(), limits)
      requires Distinct(reaped)
      modifies this`children, this`admitted, counts`nodes, counts.heads, counts.repr
      modifies pids`nodes, pids.heads, pids.repr
      ensures fate == if Pids(reaped) <= old(pids.Map()).Keys then Fine else NullRead
      ensures fate.Fine? ==> Books(pending) && pids.Map() == old(pids.Map()) - Pids(reaped)
      ensures fate.Fine? ==> Within(admitted, pids.Map(), limits) && admitted == old(admitted) - Pids(reaped)
    {
      hide Table.Valid, Table.Map, Listener.Books, Balanced, Within, Distinct, Pids;
      var n := 0;
      ghost var alive := pids.Map();
      PidsNone(reaped, alive);
      while n < |reaped|
        invariant n <= |reaped| && Books(pending) && Within(admitted, pids.Map(), limits)
        invariant pids.Map() == alive - Pids(reaped[..n]) && Pids(reaped[..n]) <= alive.Keys
        invariant admitted == old(admitted) - Pids(reaped[..n])
      {
        ReapNext(alive, reaped, n);
        WithinReaped(admitted, pids.Map(), reaped[n], limits);
        fate := ReapOne(reaped[n], pending);
        if !fate.Fine? {
          return;
        }
        n := n + 1;
      }
      fate := Fine;
    }

    /** Between accept and fork: the connection is on the books before there is a child. */
    method Open(ip: Ip) returns (launch: Launch)
      requires Books(None)
      modifies this`children, counts`nodes, counts`stamp, counts`repr, counts.heads, counts.repr
      ensures Books(Some(ip)) && pids.Map() == old(pids.Map())
      ensures launch == Launch(|pids.Map()| + 1, |At(pids.Map(), ip)| + 1)
      ensures fresh(counts.repr - old(counts.repr))
    {
      hide Table.Valid, Table.Map, Balanced;
      ArrivalBalances(counts.Map(), pids.Map(), ip);
      ChildrenFit(pids.Map(), ip);
      children := Inc(children);
      var died, count := HandleIpCount(ip);
      launch := Launch(children, count);
    }

    /** fork failed: the connection comes off the books. */
    method Undo(ip: Ip) returns (fate: Fate)
      requires Books(Some(ip))
      modifies this`children, counts`nodes, counts.heads, counts.repr
      ensures fate.Fine? && Books(None) && pids.Map() == old(pids.Map())
    {
      hide Table.Valid, Table.Map, Balanced, Lowered;
      FailureBalances(counts.Map(), pids.Map(), ip);
      children := Dec(children);
      fate := DropIpCount(Some(ip));
    }

    /** fork succeeded: the child goes into the pid table. */
    method Enter(pid: Pid, ip: Ip) returns (fate: Fate)
      requires Books(Some(ip)) && pid !in pids.Map()
      modifies pids`nodes, pids`stamp, pids`repr, pids.heads, pids.repr
      ensures fate.Fine? && Books(None) && pids.Map() == old(pids.Map())[pid := ip]
      ensures fresh(pids.repr - old(pids.repr))
    {
      hide Table.Valid, Table.Map, Balanced;
      ForkBalances(counts.Map(), pids.Map(), pid, ip);
      var died := pids.Add(pid, ip);
      fate := if died then Bug else Fine;
    }

    /** After fork and close: the books, and whether the child lets the client in. */
    method Settle(c: Connection, launch: Launch, limits: Limits) returns (fate: Fate)
      requires Books(Some(c.ip)) && Within(admitted, pids.Map(), limits) && (c.fork.Some? ==> c.fork.value !in pids.Map())
      requires launch.children > |pids.Map()| && launch.thisIp > |At(pids.Map(), c.ip)|
      modifies this`children, this`admitted, counts`nodes, counts.heads, counts.repr
      modifies pids`nodes, pids`stamp, pids`repr, pids.heads, pids.repr
      ensures fate.Fine? && Books(None) && pids.Map() == Forked(old(pids.Map()), c) && Within(admitted, pids.Map(), limits)
      ensures admitted == old(admitted) + Newcomer(c, c.allowed && Passes(launch, limits))
      ensures fresh(pids.repr - old(pids.repr))
    {
      hide Table.Valid, Table.Map, Listener.Books, Balanced, Within, At, Passes, Forked;
      ForkedIs(pids.Map(), c);
      ghost var left := pids.Map();
      if c.fork.None? {
        fate := Undo(c.ip);
      } else {
        fate := Enter(c.fork.value, c.ip);
        var passes := c.allowed && Passes(launch, limits);
        WithinForked(admitted, left, c.fork.value, c.ip, launch, passes, limits);
        if passes {
          admitted := admitted + {c.fork.value};
        }
      }
    }

    /** The rest of the loop body once a connection has been accepted. */
    method Serve(c: Connection, limits: Limits) returns (fate: Fate)
      requires Books(None) && Within(admitted, pids.Map(), limits) && Reapable(Forked(pids.Map(), c), c.during)
      requires c.fork.Some? ==> c.fork.value !in pids.Map()
      modifies this`children, this`admitted, counts, counts.heads, counts.repr, pids, pids.heads, pids.repr
      ensures fate == if c.fork.Some? && c.fork.value in c.during then NullRead else Fine
      ensures fate.Fine? ==> Books(None) && pids.Map() == Forked(old(pids.Map()), c) - Pids(c.during)
      ensures fate.Fine? ==> Within(admitted, pids.Map(), limits)
      ensures fate.Fine? ==> admitted == old(admitted) - Pids(c.during) + Newcomer(c, LetIn(old(pids.Map()), c, limits))
      ensures fresh(counts.repr - old(counts.repr)) && fresh(pids.repr - old(pids.repr))
    {
      hide Table.Valid, Table.Map, Listener.Books, Balanced, Within, Distinct, At, Pids, Forked, LetIn, Passes, Newcomer;
      ghost var alive := pids.Map();
      CloseRace(alive, c);
      FewerLeft(alive, Pids(c.during), c.ip);
      var launch := Open(c.ip);
      LetInMeans(alive, c, launch, limits);
      fate := HandleSigchld(c.during, Some(c.ip), limits);
      if !fate.Fine? {
        return;
      }
      fate := Settle(c, launch, limits);
    }

    /** One turn of the accept loop. */
    method Accept(a: Arrival, limits: Limits) returns (fate: Fate)
      requires Books(None) && Within(admitted, pids.Map(), limits) && Possible(pids.Map(), a)
      modifies this`children, this`admitted, counts, counts.heads, counts.repr, pids, pids.heads, pids.repr
      ensures fate == if Raced(a) then NullRead else Fine
      ensures fate.Fine? ==> Books(None) && pids.Map() == After(old(pids.Map()), a)
      ensures fate.Fine? ==> Within(admitted, pids.Map(), limits)
      ensures fate.Fine? ==> admitted == Serving(old(admitted), old(pids.Map()), a, limits)
      ensures fresh(counts.repr - old(counts.repr)) && fresh(pids.repr - old(pids.repr))
    {
      hide Table.Map, Listener.Books, Within, LetIn, Pids, Newcomer;
      fate := HandleSigchld(a.before, None, limits);
      if a.conn.None? {
        return;
      }
      fate := Serve(a.conn.value, limits);
    }

    /** What the books say about an address. */
    method Ask(ip: Ip) returns (total: Word, entry: Option<Word>)
      requires Books(None)
      ensures total == |pids.Map()|
      ensures entry == if At(pids.Map(), ip) == {} then None else Some(|At(pids.Map(), ip)|)
    {
      hide Table.Valid, Table.Map;
      var died;
      total := children;
      died, entry := counts.Lookup(ip);
      assert Held(counts.Map(), ip) == |At(pids.Map(), ip)|;
    }
  }

  predicate AnyRaced(arrivals: seq<Arrival>) {
    exists n :: 0 <= n < |arrivals| && Raced(arrivals[n])
  }

  lemma NothingYet(arrivals: seq<Arrival>, limits: Limits)
    ensures Admitted(arrivals[..0], limits) == {}
    ensures Alive(arrivals[..0]) == map[] && !AnyRaced(arrivals[..0])
  {
  }

  lemma OneMoreArrival(arrivals: seq<Arrival>, n: nat, limits: Limits)
    requires n < |arrivals|
    ensures Admitted(arrivals[..n + 1], limits) ==
            Serving(Admitted(arrivals[..n], limits), Alive(arrivals[..n]), arrivals[n], limits)
    ensures AllPossible(arrivals) ==> Possible(Alive(arrivals[..n]), arrivals[n])
    ensures Alive(arrivals[..n + 1]) == After(Alive(arrivals[..n]), arrivals[n])
    ensures AnyRaced(arrivals[..n + 1]) <==> AnyRaced(arrivals[..n]) || Raced(arrivals[n])
    ensures Raced(arrivals[n]) ==> AnyRaced(arrivals)
  {
    hide After, Raced, Serving, Possible;
    assert arrivals[..n + 1][..n] == arrivals[..n];
    if AnyRaced(arrivals[..n]) {
      var i :| 0 <= i < n && Raced(arrivals[..n][i]);
      assert arrivals[..n + 1][i] == arrivals[i];
    }
    assert arrivals[..n + 1][n] == arrivals[n];
  }

  lemma NobodyYet(limits: Limits)
    ensures Within({}, map[], limits)
  {
  }

  /**
   vsf_standalone_main over any run of connections and exits: no bug check ever fires, and an address
   at NULL is hashed exactly when some new child is reaped while the listener still retries close.
   Otherwise, each time accept is called, s_children is the number of unreaped children, the entry of every
   address is its number of unreaped children and exists only when there are any; a child that has not been
   reaped is served exactly if it is allowed and its connection found fewer unreaped children than either
   limit, in all and from its address; and so the sessions served respect both limits.
   */
  method Run(arrivals: seq<Arrival>, limits: Limits, ip: Ip)
    returns (fate: Fate, children: Word, entry: Option<Word>, ghost admitted: set<Pid>)
    requires AllPossible(arrivals)
    ensures fate != Bug
    ensures fate == NullRead <==> AnyRaced(arrivals)
    ensures fate.Fine? ==>
      var alive := Alive(arrivals);
      && children == |alive|
      && entry == (if At(alive, ip) == {} then None else Some(|At(alive, ip)|))
      && Within(admitted, alive, limits)
      && admitted == Admitted(arrivals, limits)
      && ServedRightly(arrivals, limits, admitted)
  {
    hide Serving, ServedRightly, Admitted, AllPossible, Table.Map, Table.Valid, Listener.Books, Listener.CountsOk, Listener.PidsOk, Possible, After, Raced, Within, At,
         Alive, AnyRaced;
    NothingYet(arrivals, limits);
    var l := new Listener();
    fate, children, entry, admitted := Fine, 0, None, {};
    var n := 0;
    NobodyYet(limits);
    while n < |arrivals|
      invariant n <= |arrivals| && fate == Fine && l.Books(None) && l.pids.Map() == Alive(arrivals[..n])
      invariant Within(l.admitted, l.pids.Map(), limits) && l.admitted == Admitted(arrivals[..n], limits)
      invariant !AnyRaced(arrivals[..n])
      invariant fresh(l) && fresh(l.counts) && fresh(l.pids) && fresh(l.counts.heads) && fresh(l.pids.heads)
      invariant fresh(l.counts.repr) && fresh(l.pids.repr)
    {
      OneMoreArrival(arrivals, n, limits);
      fate := l.Accept(arrivals[n], limits);
      if !fate.Fine? {
        return;
      }
      n := n + 1;
    }
    assert arrivals[..n] == arrivals;
    children, entry := l.Ask(ip);
    admitted := l.admitted;
    AllServedRightly(arrivals, limits);
  }
}
