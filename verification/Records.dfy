/** Location records: the last-known node of an entity, classified against the
    rank that holds the record. */
module Records {

  type EntityID = int
  type NodeType = int

  const NO_NODE: NodeType := -1

  datatype Option<+T> = None | Some(value: T)

  datatype LocState = Local | Remote | Invalid

  datatype LocRecord = LocRecord(id: EntityID, state: LocState, curNode: NodeType) {

    /** Repoint the record at `newNode`, as seen from `thisNode`. */
    function UpdateNode(newNode: NodeType, thisNode: NodeType): LocRecord {
      this.(state := if newNode == thisNode then Local else Remote, curNode := newNode)
    }

    /** What every record stored on rank `holder` under key `key` satisfies. */
    predicate ClassifiedFor(key: EntityID, holder: NodeType) {
      && id == key
      && !state.Invalid?
      && (state.Local? <==> curNode == holder)
    }
  }

  /** A record for `id` pointing at `node`, built on rank `thisNode`. */
  function MakeRec(id: EntityID, node: NodeType, thisNode: NodeType): (rec: LocRecord)
    ensures rec.ClassifiedFor(id, thisNode) && rec.curNode == node
  {
    LocRecord(id, Invalid, NO_NODE).UpdateNode(node, thisNode)
  }
}
