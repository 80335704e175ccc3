/** Segments and sections of a 64-bit Mach-O image, as the rewriter's layout records them. */
module MachOLayout {

  datatype Segment = Segment(name: string, vmaddr: nat, vmsize: nat, fileoff: nat, filesize: nat)

  /** A section; `fileOffset` is 0 for zerofill sections. */
  datatype Section = Section(sectname: string, segname: string, vaddr: nat, size: nat, fileOffset: nat, flags: nat)
}
