/** Slotted pages as values: a page type and the list of its slots. The byte layout that
    implements this list in place is in SlottedPages. */
module Pages {
  import opened Bytes

  const PAGE_SIZE: nat := 4096
  const HEADER_LEN: nat := 16
  const SLOT_LEN: nat := 4
  /** What a fresh page offers to slots and records together. */
  const PAGE_CAPACITY: nat := PAGE_SIZE - HEADER_LEN

  datatype PageType = Data | BTreeLeaf | BTreeInternal | Meta

  /** A deleted slot keeps its length: its bytes are never reclaimed. */
  datatype Slot = Live(data: Bytes) | Dead(len: nat)

  datatype Page = Page(ptype: PageType, slots: seq<Slot>)

  type PageId = nat
  /** A logical page map: what a client of the buffer pool reads, total on page ids. */
  type View = imap<PageId, Page>

  function NewPage(ptype: PageType): Page {
    Page(ptype, [])
  }

  function SlotSize(s: Slot): nat {
    match s
    case Live(data) => |data|
    case Dead(len) => len
  }

  /** Bytes taken by the records of `slots`. */
  function RecordBytes(slots: seq<Slot>): nat {
    if slots == [] then 0 else RecordBytes(slots[..|slots| - 1]) + SlotSize(slots[|slots| - 1])
  }

  /** Directory and record bytes together. */
  function Used(slots: seq<Slot>): nat {
    SLOT_LEN * |slots| + RecordBytes(slots)
  }

  predicate Fits(slots: seq<Slot>) {
    Used(slots) <= PAGE_CAPACITY
  }

  /** `None` is `PageError::Full`; the new record's slot id is the old slot count. */
  function Insert(p: Page, data: Bytes): Option<Page> {
    if PAGE_CAPACITY - Used(p.slots) < SLOT_LEN + |data| then None
    else Some(p.(slots := p.slots + [Live(data)]))
  }

  /** `None` is `PageError::InvalidSlot`. */
  function Get(p: Page, slot: nat): Option<Bytes> {
    if slot >= |p.slots| || p.slots[slot].Dead? then None else Some(p.slots[slot].data)
  }

  function Delete(p: Page, slot: nat): Option<Page> {
    if slot >= |p.slots| || p.slots[slot].Dead? then None
    else Some(p.(slots := p.slots[slot := Dead(|p.slots[slot].data|)]))
  }

  lemma {:induction false} RecordBytesMonotone(slots: seq<Slot>, n: nat)
    requires n <= |slots|
    ensures RecordBytes(slots[..n]) <= RecordBytes(slots)
  {
    if n < |slots| {
      RecordBytesMonotone(slots[..|slots| - 1], n);
      assert slots[..|slots| - 1][..n] == slots[..n];
    } else {
      assert slots[..n] == slots;
    }
  }

  /** A new record resolves under the next slot id, and every slot before it as before. */
  lemma InsertGets(p: Page, data: Bytes, slot: nat)
    requires Insert(p, data).Some?
    ensures Get(Insert(p, data).value, slot) == if slot == |p.slots| then Some(data) else Get(p, slot)
  {
  }

  /** A slot can be deleted exactly while it resolves; then it stops resolving, and no other changes. */
  lemma DeleteGets(p: Page, slot: nat)
    ensures Delete(p, slot).Some? <==> Get(p, slot).Some?
    ensures Delete(p, slot).Some? ==>
              var p' := Delete(p, slot).value;
              Get(p', slot) == None && forall i: nat :: i != slot ==> Get(p', i) == Get(p, i)
  {
  }
}
