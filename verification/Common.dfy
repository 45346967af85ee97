/** Values shared by every component: optional values and record identifiers. */
module Common {

  datatype Option<+T> = None | Some(value: T)

  /** Reference to a record by page and slot (engine/common/rid.py). */
  datatype RID = RID(pageId: int, slot: int)
}
