/** src/managers/process/process_manager.c: a table of 64 process control
    blocks indexed by pid - 1. A block is identified by its pid; the
    table holds the block itself. */
module ProcessTable {
  import opened Options

  const MaxProcesses: nat := 64
  const StateReady: nat := 1
  const StateRunning: nat := 2

  /** process_t */
  datatype Pcb = Pcb(pid: int, entryPoint: nat, state: nat)

  datatype Manager = Manager(table: seq<Option<Pcb>>, nextPid: int)

  /** Slot i holds the block with pid i + 1, and no slot at or past
      next_pid - 1 is in use. */
  predicate Valid(m: Manager)
  {
    && |m.table| == MaxProcesses
    && 1 <= m.nextPid
    && (forall i :: 0 <= i < MaxProcesses && m.table[i].Some? ==> m.table[i].value.pid == i + 1)
    && (forall i :: 0 <= i < MaxProcesses && i >= m.nextPid - 1 ==> m.table[i].None?)
  }

  /** process_manager_init */
  function Init(): (m: Manager)
    ensures Valid(m) && m.nextPid == 1
    ensures forall i :: 0 <= i < MaxProcesses ==> m.table[i] == None
  {
    Manager(seq(MaxProcesses, _ => None), 1)
  }

  /** process_create_sysman, with gotBlock saying whether kmalloc found
      room for the block. Pids past 64 would be written outside the table,
      so next_pid must still name a slot. */
  function CreateSysman(m: Manager, entry: nat, gotBlock: bool): (r: (Manager, int))
    requires Valid(m) && m.nextPid <= MaxProcesses
    ensures Valid(r.0)
    ensures !gotBlock ==> r == (m, -1)
    ensures gotBlock ==>
      && r.1 == m.nextPid
      && r.0.nextPid == m.nextPid + 1
      && r.0.table == m.table[m.nextPid - 1 := Some(Pcb(m.nextPid, entry, StateReady))]
  {
    if !gotBlock then (m, -1)
    else
      var pcb := Pcb(m.nextPid, entry, StateReady);
      (Manager(m.table[pcb.pid - 1 := Some(pcb)], m.nextPid + 1), pcb.pid)
  }

  /** process_get_by_pid */
  function GetByPid(m: Manager, pid: int): (r: Option<Pcb>)
    requires Valid(m)
    ensures pid < 1 || pid > MaxProcesses ==> r == None
    ensures r.Some? ==> r.value.pid == pid && 1 <= pid <= MaxProcesses
    ensures 1 <= pid <= MaxProcesses ==> r == m.table[pid - 1]
  {
    if pid < 1 || pid > MaxProcesses then None else m.table[pid - 1]
  }

  /** A created process is found under the pid it was given. */
  lemma CreateThenGet(m: Manager, entry: nat)
    requires Valid(m) && m.nextPid <= MaxProcesses
    ensures var r := CreateSysman(m, entry, true);
      GetByPid(r.0, r.1) == Some(Pcb(r.1, entry, StateReady))
  {
  }

  /** The number of slots in use among the first n. */
  function Used(table: seq<Option<Pcb>>, n: nat): (c: nat)
    requires n <= |table|
    ensures c <= n
  {
    if n == 0 then 0 else Used(table, n - 1) + (if table[n - 1].Some? then 1 else 0)
  }

  /** process_manager_get_count */
  method GetCount(m: Manager) returns (count: int)
    requires Valid(m)
    ensures count == Used(m.table, MaxProcesses)
    ensures 0 <= count <= MaxProcesses
  {
    count := 0;
    var i := 0;
    while i < MaxProcesses
      invariant 0 <= i <= MaxProcesses
      invariant count == Used(m.table, i)
    {
      if m.table[i] != None {
        count := count + 1;
      }
      i := i + 1;
    }
  }

  lemma {:induction false} UsedUpdate(t: seq<Option<Pcb>>, j: nat, x: Option<Pcb>, n: nat)
    requires j < |t| && n <= |t|
    ensures Used(t[j := x], n) ==
      Used(t, n) + (if j < n && x.Some? && t[j].None? then 1 else 0)
                 - (if j < n && x.None? && t[j].Some? then 1 else 0)
  {
    if n > 0 {
      UsedUpdate(t, j, x, n - 1);
    }
  }

  /** Each successful creation adds one to the count. */
  lemma CreateCounts(m: Manager, entry: nat)
    requires Valid(m) && m.nextPid <= MaxProcesses
    ensures Used(CreateSysman(m, entry, true).0.table, MaxProcesses) == Used(m.table, MaxProcesses) + 1
  {
    UsedUpdate(m.table, m.nextPid - 1, Some(Pcb(m.nextPid, entry, StateReady)), MaxProcesses);
  }

  /** process_start up to the jump into ring 3: the block (if any) is
      marked running; its table slot sees the change. */
  function Start(m: Manager, pcb: Option<Pcb>): (r: Manager)
    requires Valid(m)
    ensures Valid(r) && r.nextPid == m.nextPid
    ensures pcb.None? ==> r == m
    ensures pcb.Some? && GetByPid(m, pcb.value.pid) == pcb ==>
      GetByPid(r, pcb.value.pid) == Some(pcb.value.(state := StateRunning))
    ensures forall pid :: pcb.None? || pid != pcb.value.pid ==> GetByPid(r, pid) == GetByPid(m, pid)
  {
    match pcb
    case None => m
    case Some(p) =>
      if 1 <= p.pid <= MaxProcesses && m.table[p.pid - 1] == pcb then
        m.(table := m.table[p.pid - 1 := Some(p.(state := StateRunning))])
      else m
  }
}
