/** Inode numbers: concurrent creators, deletions, mounts and unmounts. */
module InodeNumbers {
  import Namespace

  /** The atomic counter, the stored continue_number, the numbers that creators have taken without having committed
      yet, and the numbers of the inode buckets. */
  datatype State = State(counter: nat, stored: nat, mounted: bool, pending: set<nat>, buckets: set<nat>)

  /** Each event is one atomic step; those of different creators interleave freely. */
  datatype Event =
    | Mount
    | Fetch(n: nat)
    | Commit(n: nat)
    | Fail(n: nat)
    | Delete(n: nat)
    | Sync
    | Umount

  /** After mkfs: continue_number is 1 and there is no inode. */
  predicate Fresh(s: State) { s.stored == Namespace.ROOT && !s.mounted && s.pending == {} && s.buckets == {} }

  /** Mounting loads the counter and, on the first mount, creates the root inode with a fetch_add. */
  function Mounted(s: State): State {
    var t := s.(counter := s.stored, mounted := true);
    if Namespace.ROOT in s.buckets then t else t.(counter := t.counter + 1, buckets := t.buckets + {Namespace.ROOT})
  }

  predicate Step(s: State, e: Event, s': State) {
    match e
    case Mount => !s.mounted && s' == Mounted(s)
    case Fetch(n) => s.mounted && n == s.counter && s' == s.(counter := n + 1, pending := s.pending + {n})
    case Commit(n) => n in s.pending && s' == s.(pending := s.pending - {n}, buckets := s.buckets + {n})
    case Fail(n) => n in s.pending && s' == s.(pending := s.pending - {n})
    case Delete(n) => n in s.buckets && n != Namespace.ROOT && s' == s.(buckets := s.buckets - {n})
    case Sync => s.mounted && s' == s.(stored := s.counter)
    case Umount => s.mounted && s' == s.(stored := s.counter, mounted := false)
  }

  datatype Run = Begin(first: State) | Then(before: Run, event: Event, after: State)

  function Final(r: Run): State {
    match r case Begin(s) => s case Then(_, _, s) => s
  }

  ghost predicate IsRun(r: Run) {
    match r case Begin(s) => Fresh(s) case Then(b, e, s) => IsRun(b) && Step(Final(b), e, s)
  }

  /** The numbers handed out, in order; the first mount hands out the root's. */
  function Handed(r: Run): seq<nat> {
    match r
    case Begin(_) => []
    case Then(b, Fetch(n), _) => Handed(b) + [n]
    case Then(b, Mount, _) => if Namespace.ROOT in Final(b).buckets then Handed(b) else Handed(b) + [Final(b).stored]
    case Then(b, _, _) => Handed(b)
  }

  /** The number from which the next mount or fetch goes on. */
  function Ceiling(s: State): nat { if s.mounted then s.counter else s.stored }

  ghost predicate Distinct(ns: seq<nat>) { forall i, j :: 0 <= i < j < |ns| ==> ns[i] != ns[j] }

  ghost predicate Inv(s: State, ns: seq<nat>) {
    && (forall i :: 0 <= i < |ns| ==> Namespace.ROOT <= ns[i] < Ceiling(s))
    && (forall n :: n in s.buckets ==> n in ns)
    && (forall n :: n in s.pending ==> n in ns && n !in s.buckets)
    && (Namespace.ROOT in s.buckets || (ns == [] && Ceiling(s) == Namespace.ROOT && !s.mounted && s.pending == {}))
    && Distinct(ns)
  }

  lemma {:induction false} MountKeeps(s: State, ns: seq<nat>)
    requires Inv(s, ns) && !s.mounted
    ensures Inv(Mounted(s), if Namespace.ROOT in s.buckets then ns else ns + [s.stored])
  {
  }

  lemma {:induction false} FetchKeeps(s: State, ns: seq<nat>, s': State)
    requires Inv(s, ns) && Step(s, Fetch(s.counter), s')
    ensures Inv(s', ns + [s.counter])
  {
  }

  lemma {:induction false} OtherKeeps(s: State, ns: seq<nat>, e: Event, s': State)
    requires Inv(s, ns) && Step(s, e, s') && !e.Mount? && !e.Fetch?
    ensures Inv(s', ns)
  {
  }

  lemma {:induction false} RunInv(r: Run)
    requires IsRun(r)
    ensures Inv(Final(r), Handed(r))
  {
    if r.Then? {
      RunInv(r.before);
      var s, ns := Final(r.before), Handed(r.before);
      match r.event
      case Mount => MountKeeps(s, ns);
      case Fetch(n) => FetchKeeps(s, ns, r.after);
      case _ => OtherKeeps(s, ns, r.event, r.after);
    }
  }

  /** Under every interleaving and over every sequence of mounts, no number is handed out twice, and all are below
      the number that comes next. */
  lemma {:induction false} NeverReused(r: Run)
    requires IsRun(r)
    ensures Distinct(Handed(r))
    ensures forall n :: n in Handed(r) ==> n < Ceiling(Final(r))
  {
    RunInv(r);
  }

  /** They are 1, 2, 3 and so on without a gap, however creators fail and mounts come and go. */
  lemma {:induction false} HandedInOrder(r: Run)
    requires IsRun(r)
    ensures Ceiling(Final(r)) == |Handed(r)| + 1
    ensures forall i :: 0 <= i < |Handed(r)| ==> Handed(r)[i] == i + 1
  {
    if r.Then? {
      HandedInOrder(r.before);
      RunInv(r.before);
    }
  }

  /** So create_bucket never finds a bucket of its number, and the first mount's fetch_add returns 1, as it asserts. */
  lemma {:induction false} NoCollision(r: Run)
    requires IsRun(r) && r.Then?
    ensures r.event.Commit? ==> r.event.n !in Final(r.before).buckets
    ensures r.event.Mount? && Namespace.ROOT !in Final(r.before).buckets ==> Final(r.before).stored == Namespace.ROOT
  {
    RunInv(r.before);
  }

  // ---------- fetches between mounts ----------

  /** The same system with creators that may still take a number after umount has read the counter. */
  predicate LateStep(s: State, e: Event, s': State) {
    Step(s, e, s') || (e.Fetch? && LateFetch(s, e.n, s'))
  }

  predicate LateFetch(s: State, n: nat, s': State) {
    !s.mounted && Namespace.ROOT in s.buckets && n == s.counter && s' == s.(counter := n + 1, pending := s.pending + {n})
  }

  ghost predicate IsLateRun(r: Run) {
    match r case Begin(s) => Fresh(s) case Then(b, e, s) => IsLateRun(b) && LateStep(Final(b), e, s)
  }

  /** How far a run has got on the way to a reuse: a fetch while unmounted, then a mount, then any fetch. */
  datatype Phase = Clean | Late | Stale | Reused

  function PhaseOf(r: Run): Phase {
    match r
    case Begin(_) => Clean
    case Then(b, e, _) =>
      match PhaseOf(b)
      case Clean => if e.Fetch? && !Final(b).mounted then Late else Clean
      case Late => if e.Mount? then Stale else Late
      case Stale => if e.Fetch? then Reused else Stale
      case Reused => Reused
  }

  ghost predicate PhaseInv(s: State, ns: seq<nat>, phase: Phase) {
    match phase
    case Clean => Inv(s, ns) && (!s.mounted && Namespace.ROOT in s.buckets ==> s.counter == s.stored)
    case Late =>
      && !s.mounted && Namespace.ROOT in s.buckets && Distinct(ns) && s.stored in ns
      && forall i :: 0 <= i < |ns| ==> ns[i] < s.counter
    case Stale =>
      Namespace.ROOT in s.buckets && Distinct(ns) && s.counter in ns && (!s.mounted ==> s.stored == s.counter)
    case Reused => !Distinct(ns)
  }

  lemma {:induction false} CleanStep(s: State, ns: seq<nat>, e: Event, s': State)
    requires PhaseInv(s, ns, Clean) && Step(s, e, s')
    ensures PhaseInv(s', match e case Fetch(n) => ns + [n]
                                 case Mount => if Namespace.ROOT in s.buckets then ns else ns + [s.stored]
                                 case _ => ns, Clean)
  {
    match e
    case Mount => MountKeeps(s, ns);
    case Fetch(n) => FetchKeeps(s, ns, s');
    case _ => OtherKeeps(s, ns, e, s');
  }

  lemma {:induction false} RepeatsStay(ns: seq<nat>, n: nat)
    ensures !Distinct(ns) || n in ns ==> !Distinct(ns + [n])
  {
    var more := ns + [n];
    if !Distinct(ns) {
      var i, j :| 0 <= i < j < |ns| && ns[i] == ns[j];
      assert more[i] == more[j];
    } else if n in ns {
      var i :| 0 <= i < |ns| && ns[i] == n;
      assert more[i] == more[|ns|];
    }
  }

  lemma {:induction false} LateRunInv(r: Run)
    requires IsLateRun(r)
    ensures PhaseInv(Final(r), Handed(r), PhaseOf(r))
  {
    if r.Then? {
      var b, e := r.before, r.event;
      LateRunInv(b);
      var s, ns := Final(b), Handed(b);
      if e.Fetch? { RepeatsStay(ns, e.n); } else if e.Mount? { RepeatsStay(ns, s.stored); }
      if PhaseOf(b) == Clean && Step(s, e, r.after) { CleanStep(s, ns, e, r.after); }
    }
  }

  /** Then a number is handed out twice exactly if somebody fetched while the file system was unmounted, it was
      mounted again, and somebody fetched after that. */
  lemma {:induction false} ReusedIff(r: Run)
    requires IsLateRun(r)
    ensures !Distinct(Handed(r)) <==> PhaseOf(r) == Reused
  {
    LateRunInv(r);
  }
}
