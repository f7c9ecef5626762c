/**
 * The five power-up kinds, their catalog entries (duration, colour, description) and
 * the record kept for a timed power-up while it is live.
 */
module PowerUpTypes {

  datatype PowerUpKind = ColorBomb | LineBlast | TimeFreeze | Shuffle | GhostBlock

  /** The kinds in declaration order, which is the order `Object.values` lists them in. */
  const AllKinds: seq<PowerUpKind> := [ColorBomb, LineBlast, TimeFreeze, Shuffle, GhostBlock]

  /** A power-up descriptor; `duration` is in whole seconds, 0 for instantaneous kinds. */
  datatype PowerUp = PowerUp(kind: PowerUpKind, duration: int, color: string, description: string)

  /** A timed power-up in effect: the descriptor plus absolute start and end times in ms. */
  datatype ActivePowerUp = ActivePowerUp(powerUp: PowerUp, startTime: int, endTime: int)

  /** What the game shows for a kind: whether it is active and the remaining time in ms. */
  datatype PowerUpStatus = PowerUpStatus(isActive: bool, remainingDuration: int)

  /** The power-up catalog. */
  function Catalog(kind: PowerUpKind): (p: PowerUp)
    ensures p.kind == kind
    ensures p.duration > 0 <==> kind == TimeFreeze || kind == GhostBlock
  {
    match kind
    case ColorBomb => PowerUp(ColorBomb, 0, "#FF5555", "Clears all blocks of selected color")
    case LineBlast => PowerUp(LineBlast, 0, "#FFD700", "Clears entire row or column")
    case TimeFreeze => PowerUp(TimeFreeze, 10, "#00BFFF", "Pauses block descent")
    case Shuffle => PowerUp(Shuffle, 0, "#9370DB", "Reorganizes all placed blocks")
    case GhostBlock => PowerUp(GhostBlock, 15, "#98FB98", "Pieces pass through others")
  }
}
