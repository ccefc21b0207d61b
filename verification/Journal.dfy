/** The order of everything a boot does that outlives it: charges, variable writes, hand-offs. */
module Journal {
  import opened Ids
  import opened Basics

  datatype Namespace = Global | Vendor

  datatype Record =
    | Charged(id: EntryId)
    | Wrote(ns: Namespace, name: string, value: seq<byte>)
    | Deleted(ns: Namespace, name: string)
    | HandedOver(id: EntryId, took: bool)

  /** Specification state only: each operation adds its record in the step that performs it. */
  class Journal {
    ghost var records: seq<Record>

    constructor ()
      ensures records == []
    {
      records := [];
    }

    ghost method Add(r: Record)
      modifies this
      ensures records == old(records) + [r]
    {
      records := records + [r];
    }
  }
}
