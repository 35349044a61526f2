/** What is remembered of a file. */
module FileEntries {

  datatype Entry = Entry(
    name: string, mtime: int, offset: int, crc: bv32, collected: bool, seen: bool, copy: string)

  predicate ToBeCollected(e: Entry) {
    !e.collected && e.seen && e.copy != ""
  }
}
