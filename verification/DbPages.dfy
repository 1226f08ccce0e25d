/** What the file-level algorithms see of the pages of a database file. */
module DbPages {

  /** A cell's child pointer (interior pages only), the first page of its overflow chain (0 if
      it has none), and the rest of it. */
  datatype Cell = Cell(child: nat, ovfl: nat, rest: int)

  datatype Page =
    | Trunk(next: nat, leaves: seq<nat>)
    | BtreePage(leaf: bool, cells: seq<Cell>, right: nat)
    | OvflPage(next: nat, rest: int)

  /** A pointer-map entry: PTRMAP_ROOTPAGE, FREEPAGE, OVERFLOW1, OVERFLOW2 or BTREE. */
  datatype Entry = Root | Free | Overflow1(parent: nat) | Overflow2(parent: nat) | Child(parent: nat)
}
