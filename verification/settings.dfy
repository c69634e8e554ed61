/**
 * Game-wide constants: the values of settings.py that the modelled core
 * reads, and Python's `min`, `max` and `abs` on integers.
 */
module Settings {
  const WINDOW_WIDTH: int := 1080
  const WINDOW_HEIGHT: int := 720

  const MAX_PLAYER_HEALTH: int := 150
  const PLAYER_SPEED: int := 5
  const INVENTORY_SIZE: int := 3

  const MINUTE_POINTS: int := 5
  const ELIM_POINTS: int := 10

  /** Side of one map tile, in pixels. */
  const TILE_SIZE: int := 90
  /** The map is five windows wide and five windows high, counted in tiles. */
  const MAP_WIDTH: int := WINDOW_WIDTH * 5 / TILE_SIZE
  const MAP_HEIGHT: int := WINDOW_HEIGHT * 5 / TILE_SIZE

  function Min(a: int, b: int): int { if a <= b then a else b }
  function Max(a: int, b: int): int { if a <= b then b else a }
  function Abs(n: int): nat { if n < 0 then -n else n }
}
