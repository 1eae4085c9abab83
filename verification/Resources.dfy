// struct pci_region: one window of PCI bus addresses, what it stands for on the CPU
// side, and how far the allocator has come in it.

module Resources {
  import opened Words

  datatype Region = Region(start: u32, phys: u64, size: u32, flags: u32, lower: u32)
}
