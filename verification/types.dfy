/** The data the switcher works on: compositor clients as reported over IPC,
    the internal window record built from them, and the application configuration. */
module Types {

  /** Opaque compositor handle of a window; only compared for equality. */
  datatype Address = Address(hex: string)

  /** The fields of a compositor client that the switcher reads. The compositor
      reports position and size as 16-bit values; widening them to 32 bits is
      lossless, so both are plain integers here. */
  datatype Client = Client(
    workspace: int,
    title: string,
    address: Address,
    at: (int, int),
    size: (int, int),
    focusHistoryId: int,
    fullscreen: bool,
    fullscreenMode: int)

  /** One window of the snapshot. `isCurrent` marks the most recently focused window. */
  datatype Window = Window(
    workspace: int,
    title: string,
    address: Address,
    position: (int, int),
    size: (int, int),
    isCurrent: bool)

  /** Where the label box sits relative to its window. */
  datatype Position = TopCenter | BottomCenter | TopLeft | BottomLeft | TopRight | BottomRight | Center

  /** The application configuration, taken as already loaded and merged. */
  datatype AppConfig = AppConfig(
    labels: string,
    cycleBefore: nat,
    labelPosition: Position,
    boxSize: int,
    ignoreCurrent: bool,
    dimInactive: bool,
    workspaceLabelWidth: int,
    ignoreWorkspace: bool)
}
