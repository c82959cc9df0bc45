/** What a section pass reports besides its new cursor: how many entries it
    went through, what it did to them, and why it stopped. */
module Sections {

  /** Why a section pass stopped.
      Complete: every entry was read and the cursor is still inside the
        datagram or exactly at its end.
      Truncated: the cursor reached or passed the end of the datagram while
        entries remained, or the last entry ran past the end.
      Malformed: the entry at the cursor could not be read (its name does not
        decode, or its fixed fields do not fit). */
  datatype Status = Complete | Truncated | Malformed

  /** Entries gone through, records rewritten, and records of a replaced type
      left alone because their RDATA is not exactly one address wide or does
      not fit in the datagram. */
  datatype Tally = Tally(examined: nat, rewritten: nat, skipped: nat)

  /** The cursor at which a pass stopped, its tally and its status. */
  datatype SectionReport = SectionReport(cursor: nat, tally: Tally, status: Status)

  /** The report of a pass that stopped without a malformed entry, with
      `left` entries not gone through. */
  function Finish(length: nat, left: nat, cursor: nat, tally: Tally): SectionReport
  {
    SectionReport(cursor, tally, if left == 0 && cursor <= length then Complete else Truncated)
  }
}
