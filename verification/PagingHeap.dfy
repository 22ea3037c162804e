/** The page tables in memory: the loops of mem/paging.c and mem/vma.c, refining module Paging. */
module PagingHeap {
  import opened Machine
  import opened Paging

  /** calc_pfn: a scan of the list of areas. */
  method FindPfn(addr: nat, areas: seq<Area>) returns (pfn: nat)
    ensures pfn == CalcPfn(areas, addr)
  {
    var l := 0;
    while l < |areas|
      invariant l <= |areas| && CalcPfn(areas, addr) == CalcPfn(areas[l..], addr)
    {
      var vma := areas[l];
      assert areas[l..][0] == vma && areas[l..][1..] == areas[l + 1..];
      if addr < vma.end && addr >= vma.start {
        var virt_offset := addr - vma.start;
        var phys_addr := (vma.physStart + virt_offset) % U32;
        return phys_addr / PAGE;
      }
      l := l + 1;
    }
    return U32 - 1;
  }

  /** is_valid_va for a thread. */
  method IsValidVa(va: nat, areas: seq<Area>) returns (ok: bool)
    ensures ok == Valid(areas, va)
  {
    for l := 0 to |areas|
      invariant forall k :: 0 <= k < l ==> !InArea(areas[k], va)
    {
      var vma := areas[l];
      if va < vma.end && va >= vma.start {
        return true;
      }
    }
    return false;
  }

  /** Physical memory, as far as it holds directories and tables, and the processes. */
  class PageTables {
    var ram: map<nat, seq<nat>>
    const kdir: nat
    var procs: map<nat, Proc>
    ghost var owner: map<nat, Owner>

    ghost function View(): State
      reads this
    {
      State(ram, owner, kdir, procs)
    }

    /** The kernel directory as the boot image has it: zeros. */
    constructor (kdir: nat)
      ensures this.kdir == kdir && procs == map[]
      ensures ram == map[kdir := ZeroTable()] && owner == map[kdir := KernelDir]
    {
      this.kdir, procs := kdir, map[];
      ram, owner := map[kdir := ZeroTable()], map[kdir := KernelDir];
    }

    /** `*x = v` for the entry at position `i` of the table in a frame. */
    method Put(f: nat, i: nat, v: nat)
      requires f in ram && i < |ram[f]|
      modifies this`ram
      ensures ram == old(ram)[f := With(old(ram)[f], i, v)]
    {
      ram := ram[f := With(ram[f], i, v)];
    }

    /** make_kernel_pte in the frame it gets from kalloc_nosleep. */
    method MakeKernelPte(pdRow: nat, pte: nat)
      requires pdRow < 256
      modifies this`ram
      ensures pte in ram && |ram[pte]| == ROWS && ram == old(ram)[pte := ram[pte]]
      ensures forall j :: 0 <= j < ROWS ==> ram[pte][j] == KernelEntry(pdRow * ROWS + j)
    {
      var baseFrameNumber := pdRow * ROWS;
      ram := ram[pte := ZeroTable()];
      for i := 0 to ROWS
        invariant pte in ram && |ram[pte]| == ROWS && ram == old(ram)[pte := ram[pte]]
        invariant forall j :: 0 <= j < i ==> ram[pte][j] == KernelEntry(pdRow * ROWS + j)
        invariant forall j :: i <= j < ROWS ==> ram[pte][j] == 0
      {
        assert ram[pte][i] == 0;
        Put(pte, i, SetPfn(ram[pte][i], baseFrameNumber + i));
        Put(pte, i, SetPresent(ram[pte][i]));
        Put(pte, i, SetReadWrite(ram[pte][i]));
        NewKernelEntry(baseFrameNumber + i);
      }
    }

    static lemma NewKernelEntry(f: nat)
      requires f < 0x10_0000
      ensures SetReadWrite(SetPresent(SetPfn(0, f))) == KernelEntry(f)
      ensures SetReadWrite(SetPresent(f * PAGE)) == KernelEntry(f)
    {
      LowBits(f, 0);
      LowBits(f, 1);
    }

    /** The rows below `n` of the kernel directory are finished, the others are still empty. */
    ghost predicate Built(n: nat)
      reads this
    {
      && kdir in ram && |ram[kdir]| == ROWS && kdir in owner && owner[kdir] == KernelDir && ram.Keys == owner.Keys
      && (forall i: nat :: i < ROWS && i < n ==> KernelRowOk(View(), i))
      && (forall i: nat :: n <= i < ROWS ==> ram[kdir][i] == 0)
    }

    /** One turn of the loop of init_kernel_paging. */
    method BuildRow(i: nat, frame: nat)
      requires Built(i) && i < ROWS && (KernelRow(i) ==> frame !in ram && frame < 0x10_0000)
      modifies this`ram, this`owner
      ensures Built(i + 1) && ram.Keys == old(ram).Keys + if KernelRow(i) then {frame} else {}
    {
      if i == 0 || i >= KERNEL_ROW {
        MakeKernelPte(if i == 0 then i else i - KERNEL_ROW, frame);
        Put(kdir, i, SetReadWrite(SetPresent(frame * PAGE)));
        owner := owner[frame := KernelTable(i)];
        NewKernelEntry(frame);
        EntryBits(frame);
        forall k: nat | k <= i ensures KernelRowOk(View(), k) {
          assert k < i ==> old(KernelRowOk(View(), k));
        }
      }
    }

    /** init_kernel_paging; `frames[i]` is the page that kalloc_nosleep hands out for row `i`. */
    method InitKernelPaging(frames: seq<nat>)
      requires Built(0) && procs == map[] && |frames| == ROWS
      requires forall i :: 0 <= i < ROWS && KernelRow(i) ==> frames[i] !in ram && frames[i] < 0x10_0000
      requires forall i, j :: 0 <= i < j < ROWS && KernelRow(i) && KernelRow(j) ==> frames[i] != frames[j]
      modifies this`ram, this`owner
      ensures Inv(View())
      ensures forall f :: f in ram ==> f in old(ram) || exists i :: 0 <= i < ROWS && KernelRow(i) && frames[i] == f
    {
      hide KernelRowOk;
      for i := 0 to ROWS
        invariant Built(i)
        invariant forall f :: f in ram ==> f in old(ram) || exists k :: 0 <= k < i && KernelRow(k) && frames[k] == f
        invariant forall k :: i <= k < ROWS && KernelRow(k) ==> frames[k] !in ram
      {
        BuildRow(i, frames[i]);
      }
    }

    /** init_user_paging on a new directory, for a new process. */
    method InitUserPaging(pid: nat, user_pd: nat, areas: seq<Area>)
      requires Inv(View()) && user_pd !in ram && pid !in procs
      modifies this
      ensures Inv(View()) && View() == Spawn(old(View()), pid, user_pd, areas)
    {
      SpawnKeeps(View(), pid, user_pd, areas);
      ghost var k := ram[kdir];
      ram := ram[user_pd := ZeroTable()];
      for i := 0 to ROWS
        invariant user_pd in ram && |ram[user_pd]| == ROWS && ram == old(ram)[user_pd := ram[user_pd]] && ram[kdir] == k
        invariant forall j :: 0 <= j < i ==> ram[user_pd][j] == UserDir(k)[j]
        invariant procs == old(procs) && owner == old(owner)
      {
        if ram[kdir][i] != 0 {
          var ptePhys := SetReadWrite(SetPresent(ram[kdir][i]));
          Put(user_pd, i, ptePhys);
        } else {
          Put(user_pd, i, 0);
        }
      }
      assert ram[user_pd] == UserDir(k);
      owner := owner[user_pd := Dir(pid)];
      procs := procs[pid := Proc(user_pd, areas)];
    }

    /** pageFaultHandler for a fault in user mode; `newPte` is the frame fmalloc would hand out.
        `ok` is false in the bad area, where the process is killed. */
    method PageFaultHandler(pid: nat, fault_address: nat, perm_violation: bool, newPte: nat) returns (ok: bool)
      requires Inv(View()) && pid in procs && fault_address < U32 && NewFrame(View(), pid, fault_address, newPte)
      modifies this`ram, this`owner
      ensures Inv(View())
      ensures match UserFault(old(View()), pid, fault_address, perm_violation, newPte)
              case Killed => !ok && View() == old(View())
              case Done(t) => ok && View() == t
      ensures ok <==> !perm_violation && fault_address < BASE
                      && exists k :: 0 <= k < |old(procs)[pid].areas|
                           && old(procs)[pid].areas[k].start <= fault_address < old(procs)[pid].areas[k].end
    {
      var thread_pgdir := procs[pid].dir;
      hide Inv, CalcPfn, SetPfn, SetPresent, SetReadWrite, SetUsermode;
      KilledExactly(View(), pid, fault_address, perm_violation, newPte);
      DirKnown(View(), pid);
      RowAndSlot(fault_address);
      var pd_pos, pte_pos := fault_address / ROW_BYTES, fault_address / PAGE % ROWS;
      var pfn := FindPfn(fault_address, procs[pid].areas);
      if perm_violation || fault_address >= BASE {
        return false;
      }
      var valid := IsValidVa(fault_address, procs[pid].areas);
      if !valid {
        return false;
      }
      FaultKeeps(View(), pid, fault_address, perm_violation, newPte);
      TablesInRam(View(), pid, fault_address);
      if IsPresent(ram[thread_pgdir][pd_pos]) {
        var pte := ram[thread_pgdir][pd_pos] / PAGE;
        if !IsPresent(ram[pte][pte_pos]) {
          Put(pte, pte_pos, SetUsermode(SetReadWrite(SetPresent(SetPfn(ram[pte][pte_pos], pfn)))));
        }
      } else {
        FillNewTable(newPte, pte_pos, pfn);
        owner := owner[newPte := Table(pid, pd_pos)];
        var pde_phys := SetUsermode(SetPresent(SetReadWrite(newPte * PAGE)));
        Put(thread_pgdir, pd_pos, pde_phys);
      }
      return true;
    }

    /** The new table of the other branch of the handler. */
    method FillNewTable(newPte: nat, pte_pos: nat, pfn: nat)
      requires newPte !in ram && pte_pos < ROWS
      modifies this`ram
      ensures ram == old(ram)[newPte := With(ZeroTable(), pte_pos, UserPte(0, pfn))]
    {
      ram := ram[newPte := ZeroTable()];
      Put(newPte, pte_pos, SetUsermode(SetReadWrite(SetPresent(SetPfn(ram[newPte][pte_pos], pfn)))));
    }

    static lemma DirKnown(s: State, pid: nat)
      requires Inv(s) && pid in s.procs
      ensures s.procs[pid].dir in s.ram && |s.ram[s.procs[pid].dir]| == ROWS
    {
      assert ProcOk(s, pid);
    }

    /** Whatever directory entry of a process is present leads to a table. */
    static lemma TablesInRam(s: State, pid: nat, va: nat)
      requires Inv(s) && pid in s.procs && va < U32
      ensures Row(va) < ROWS && Slot(va) < ROWS && s.procs[pid].dir in s.ram && |s.ram[s.procs[pid].dir]| == ROWS
      ensures var e := s.ram[s.procs[pid].dir][Row(va)];
              IsPresent(e) ==> e / PAGE in s.ram && |s.ram[e / PAGE]| == ROWS
    {
      RowAndSlot(va);
      ProcDirectory(s, pid);
      DirectoryRow(s, s.procs[pid].dir, Row(va));
    }
  }
}
