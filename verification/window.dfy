/**
  Window geometry and how the start-up size is chosen: a saved record wins
  over the caller's width and height; without one the window opens at the
  origin with the caller's size, in the normal state.
 */
module Window {
  import opened Wrappers

  /** `lorca.Bounds`: the one record persisted between runs. */
  datatype Bounds = Bounds(left: int, top: int, width: int, height: int, windowState: string)

  const Normal: string := "normal"

  /** The size handed to the UI and the bounds stored and passed to `SetBounds` at start-up. */
  datatype Resolved = Resolved(width: int, height: int, bounds: Bounds)

  /**
    Start-up resolution. `saved` is the outcome of reading the saved record:
    `Some` when it decoded, `None` when the file was missing or malformed.
   */
  function Resolve(saved: Option<Bounds>, width: int, height: int): (r: Resolved)
    ensures r.width == r.bounds.width && r.height == r.bounds.height
    ensures saved.Some? ==> r.bounds == saved.value
    ensures saved.None? ==> r.width == width && r.height == height
    ensures saved.None? ==> r.bounds == Bounds(0, 0, width, height, Normal)
  {
    match saved
    case Some(b) => Resolved(b.width, b.height, b)
    case None => Resolved(width, height, Bounds(0, 0, width, height, Normal))
  }
}
