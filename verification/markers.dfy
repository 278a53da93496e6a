/** The filesystem trigger channel: each marker file under the configuration
    directory is either absent or present with a modification time and a
    content. Times are milliseconds. */
module Markers {
  import opened Wrappers

  datatype Marker = Marker(mtime: nat, content: string)

  /** The three marker files of the trigger channel:
      `hotkey-trigger`, `selection.txt` and `focus-window`. */
  datatype Markers = Markers(
    trigger: Option<Marker>,
    selection: Option<Marker>,
    focus: Option<Marker>)

  const NoMarkers := Markers(None, None, None)

  /** `File::create`: the file exists afterwards, truncated, stamped `now`. */
  function Touch(now: nat): Marker {
    Marker(now, "")
  }
}
