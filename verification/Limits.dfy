/** The sizes of PiPixelController.h and of the listeners' receive buffers. */
module Limits {
  const PORTS := 4
  const STRINGS := 8
  const SLOTS := 32
  const MAX_UNIVERSES := 48
  const UNIVERSE_SIZE := 512
  const PIXEL_BUFFER_SIZE := 24576
  const MAX_CHANNELS_PER_DEVICE := 19200
  const ETH_BUFFER_SIZE := 1500
}
