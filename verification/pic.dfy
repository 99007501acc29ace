/** The two chained 8259 programmable interrupt controllers of
    v1/src/pic.rs.  Each controller serves eight interrupt vectors starting
    at its offset; acknowledging an interrupt is a write of the
    end-of-interrupt command to the controller's command port.  Port writes
    are not performed here but returned, in order, as a trace. */
module Pics {
  import opened Base

  /** The end-of-interrupt command byte. */
  const CMD_END_OF_INTERRUPT: u8 := 0x20

  /** Command ports of the primary and the secondary controller. */
  const PRIMARY_COMMAND: u16 := 0x20
  const SECONDARY_COMMAND: u16 := 0xA0

  /** Number of vectors a controller serves. */
  const LINES: nat := 8

  datatype Pic = Pic(offset: u8, command: u16)

  /** `ChainedPics`: the source's two-element array, element 0 being the
      primary controller and element 1 the secondary one. */
  datatype ChainedPics = ChainedPics(primary: Pic, secondary: Pic)

  /** One `outb` of `value` to `port`. */
  datatype PortWrite = PortWrite(port: u16, value: u8)

  /** The vectors a controller serves, read as unbounded numbers. */
  predicate Serves(p: Pic, id: nat)
  {
    p.offset <= id < p.offset + LINES
  }


  /** `handles_interrupt`: `offset <= id && id < offset + 8` on `u8`.  The
      `&&` does not evaluate its right side when the offset is above the
      id; otherwise `offset + 8` is computed in eight bits, which aborts a
      debug build for an offset of 248 or more. */
  function HandlesInterrupt(p: Pic, id: u8): (r: Result<bool, string>)
    ensures r.Err? <==> p.offset <= id && p.offset + LINES >= TWO_8
    ensures r.Err? ==> r.error == ADD_OVERFLOW
    ensures r.Ok? ==> (r.value <==> Serves(p, id))
  {
    if !(p.offset <= id) then Ok(false)
    else if p.offset + 8 >= TWO_8 then Err(ADD_OVERFLOW)
    else Ok(id < p.offset + 8)
  }

  /** A controller whose `offset + 8` fits in a `u8` never aborts, and
      answers whether it serves the vector.  (An offset of 248 serves
      vectors 248 to 255 yet aborts on each of them.) */
  lemma HandlesInterruptTotal(p: Pic, id: u8)
    requires p.offset + LINES < TWO_8
    ensures HandlesInterrupt(p, id) == Ok(Serves(p, id))
  {
  }

  /** `end_of_interrupt`: the command byte written to the command port. */
  function EndOfInterrupt(p: Pic): (w: PortWrite)
    ensures w.port == p.command && w.value == CMD_END_OF_INTERRUPT
  {
    PortWrite(p.command, CMD_END_OF_INTERRUPT)
  }

  /** `ChainedPics::new(offset1, offset2)`. */
  function New(offset1: u8, offset2: u8): (c: ChainedPics)
    ensures c.primary.offset == offset1 && c.primary.command == PRIMARY_COMMAND
    ensures c.secondary.offset == offset2 && c.secondary.command == SECONDARY_COMMAND
  {
    ChainedPics(Pic(offset1, PRIMARY_COMMAND), Pic(offset2, SECONDARY_COMMAND))
  }

  /** `notify_end_of_interrupt`: the port writes it makes, or the abort of
      one of its `handles_interrupt` tests.  The acknowledgement routes by
      the serving controller: a vector of the secondary controller is
      acknowledged to the secondary and then to the primary (through which
      the secondary is chained), one of the primary only to the primary,
      and any other vector to neither.  The secondary is asked first, so
      its abort wins, and the primary is asked only when the secondary
      does not serve the vector. */
  function NotifyEndOfInterrupt(c: ChainedPics, id: u8): (r: Result<seq<PortWrite>, string>)
    ensures r.Err? <==>
              HandlesInterrupt(c.secondary, id).Err? ||
              (!Serves(c.secondary, id) && HandlesInterrupt(c.primary, id).Err?)
    ensures r.Err? ==> r.error == ADD_OVERFLOW
    ensures r.Ok? ==>
              r.value ==
                if Serves(c.secondary, id) then
                  [PortWrite(c.secondary.command, CMD_END_OF_INTERRUPT), PortWrite(c.primary.command, CMD_END_OF_INTERRUPT)]
                else if Serves(c.primary, id) then
                  [PortWrite(c.primary.command, CMD_END_OF_INTERRUPT)]
                else []
  {
    match HandlesInterrupt(c.secondary, id)
    case Err(e) => Err(e)
    case Ok(true) => Ok([EndOfInterrupt(c.secondary), EndOfInterrupt(c.primary)])
    case Ok(false) =>
      match HandlesInterrupt(c.primary, id)
      case Err(e) => Err(e)
      case Ok(true) => Ok([EndOfInterrupt(c.primary)])
      case Ok(false) => Ok([])
  }

  /** For controllers built by `new` with offsets below 248, so that no
      test aborts: a secondary vector writes the command to port 0xA0 and
      then to port 0x20. */
  lemma SecondaryAcknowledgesBoth(offset1: u8, offset2: u8, id: u8)
    requires offset1 + LINES < TWO_8 && offset2 + LINES < TWO_8
    requires offset2 <= id < offset2 + LINES
    ensures NotifyEndOfInterrupt(New(offset1, offset2), id) ==
              Ok([PortWrite(0xA0, CMD_END_OF_INTERRUPT), PortWrite(0x20, CMD_END_OF_INTERRUPT)])
  {
    HandlesInterruptTotal(New(offset1, offset2).secondary, id);
  }

  /** A vector of the primary controller only writes to port 0x20. */
  lemma PrimaryAcknowledgesItself(offset1: u8, offset2: u8, id: u8)
    requires offset1 + LINES < TWO_8 && offset2 + LINES < TWO_8
    requires offset1 <= id < offset1 + LINES
    requires !(offset2 <= id < offset2 + LINES)
    ensures NotifyEndOfInterrupt(New(offset1, offset2), id) == Ok([PortWrite(0x20, CMD_END_OF_INTERRUPT)])
  {
    HandlesInterruptTotal(New(offset1, offset2).secondary, id);
    HandlesInterruptTotal(New(offset1, offset2).primary, id);
  }

  /** A vector neither controller serves writes nothing. */
  lemma OtherVectorsUntouched(offset1: u8, offset2: u8, id: u8)
    requires offset1 + LINES < TWO_8 && offset2 + LINES < TWO_8
    requires !(offset1 <= id < offset1 + LINES) && !(offset2 <= id < offset2 + LINES)
    ensures NotifyEndOfInterrupt(New(offset1, offset2), id) == Ok([])
  {
    HandlesInterruptTotal(New(offset1, offset2).secondary, id);
    HandlesInterruptTotal(New(offset1, offset2).primary, id);
  }
}
