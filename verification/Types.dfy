/** The value types shared by every component: identifiers, record ids and options. */
module Types {
  /** `IntegerKey` wraps a C++ `int`; 32 bits on every platform the build supports. */
  type Key = k: int | MIN_KEY <= k <= MAX_KEY witness 0

  const MIN_KEY: int := -0x8000_0000
  const MAX_KEY: int := 0x7fff_ffff

  /** Page ids are handed out by a counter starting at 0; -1 means "no page". */
  type PageId = int

  const INVALID_PAGE_ID: PageId := -1

  datatype Rid = Rid(pageId: PageId, slot: int) {
    predicate IsValid() {
      pageId != INVALID_PAGE_ID && slot != -1
    }
  }

  /** One slot of a leaf page: `key_array_[i]` together with `rid_array_[i]`. */
  datatype Item = Item(key: int, rid: Rid)

  datatype Option<+T> = None | Some(value: T)
}
