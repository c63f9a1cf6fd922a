/** A table: its header columns and its rows. */
module Tables {
  import opened Registers

  datatype Table = Table(columns: seq<string>, registers: seq<Register>)
}
