// The machine and the process as kernel_main64 leaves them for the shell.
module Startup {
  import opened Words
  import opened Pmm
  import opened PageTables
  import opened AddressSpaces
  import opened Placing
  import opened Lifecycle
  import opened Machines
  import opened Syscalls
  import opened Boot

  // pmm_init, proc_init and vm_set_kernel_cr3(vm_get_cr3()) on a machine that runs on the boot code's root: the
  // starting state of the model, reached by the code.
  method StartKernel(ram: array<Word>, bssEnd: Word, ghost pml4: Frame, ghost pdpt: Frame, cr3: Word)
    returns (m: Machine, p: Process)
    requires ram.Length == 512 * FRAMES && 0 < bssEnd <= 4096 * FRAMES && cr3 == 4096 * (pml4 as int)
    requires var start: Bump := (bssEnd + 4095) / 4096;
             BootLayout(ram[..], start, pml4, pdpt) && IdentityMap(ram[..], pml4, pdpt)
    ensures fresh(m) && fresh(p) && m.ram == ram && Ready(m, p)
    ensures var start: Bump := (bssEnd + 4095) / 4096;
            && Syscalls.State(m, p) == BootKernel(ram[..], start, pml4, pdpt)
            && Booted(Syscalls.State(m, p), start, pml4, pdpt)
    ensures m.tlb == map[]
  {
    hide Booted, TablesOk, IdentityMap;
    ghost var start: Bump := (bssEnd + 4095) / 4096;
    BootOk(ram[..], start, pml4, pdpt);
    StartTables(ram[..], start, pml4, pdpt);
    m := new Machine(ram, bssEnd, cr3, BootRoles(pml4, pdpt));
    m.PmmInit();
    p := new Process();
    m.VmSetKernelCr3(m.cr3);
  }

  lemma StartTables(mem: Memory, start: Bump, pml4: Frame, pdpt: Frame)
    requires Booted(BootKernel(mem, start, pml4, pdpt), start, pml4, pdpt)
    ensures TablesOk(BootVm(mem, start, pml4, pdpt))
  {
  }
}
