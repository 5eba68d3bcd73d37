/** The persisted edits: one local-storage slot ("comment_edits") holding a
    map from comment id to a map from edited field to its latest value. */
module EditStore {
  import opened Records

  type FieldEdits = map<Field, string>
  type Edits = map<int, FieldEdits>

  /** What the storage slot holds: nothing, text that does not parse as the
      edits map, or the edits map itself. The JSON text is abstracted away. */
  datatype Slot = Absent | Unparsable | Stored(edits: Edits)

  /** `loadEditsFromStorage`: never fails; an empty or unreadable slot reads
      as no edits at all. Being a function of the slot alone, two loads with
      no write in between give equal maps. */
  function Load(slot: Slot): (edits: Edits)
    ensures slot.Absent? || slot.Unparsable? ==> edits == map[]
    ensures slot.Stored? ==> edits == slot.edits
  {
    match slot
    case Stored(e) => e
    case _ => map[]
  }

  /** The map `saveEditToStorage` writes back: `{ ...edits, [id]: { ...edits[id], [f]: v } }`. */
  function SetEdit(edits: Edits, id: int, f: Field, v: string): (r: Edits)
    ensures r.Keys == edits.Keys + {id}
    ensures r[id].Keys == (if id in edits then edits[id].Keys else {}) + {f}
    ensures r[id][f] == v
    ensures forall g :: g in r[id] && g != f ==> r[id][g] == edits[id][g]
    ensures forall k :: k in edits && k != id ==> r[k] == edits[k]
  {
    var prior := if id in edits then edits[id] else map[];
    edits[id := prior[f := v]]
  }
}
