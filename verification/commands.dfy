/** The nine nanobot commands (`Command`). */
module Commands {
  import opened Geometry

  datatype Command =
    | Halt
    | Wait
    | Flip
    | SMove(delta: Delta)
    | LMove(delta0: Delta, delta1: Delta)
    | Fill(delta: Delta)
    | Fission(delta: Delta, m: int)
    | FusionP(delta: Delta)
    | FusionS(delta: Delta)
}
